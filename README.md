# Seed-phrase encryptor, modelled in Dafny

This project models `SeedPhraseEncryptor` from `src/crypto/encryption.py` of
anonymous_seedphrase. The encryptor protects a BIP39 seed phrase with a
password:

- **Key derivation.** PBKDF2-HMAC-SHA256 (600 000 iterations, 32 bytes) turns
  the password and a random 32-byte salt into a Fernet key. The key is the
  derived bytes in URL-safe base 64.
- **Encryption.** Fernet encrypts the phrase. A metadata dictionary records
  the format version, the algorithm, the KDF, the iteration count, the salt
  in standard base 64 and a timestamp.
- **Decryption.** The key is derived again from the recorded salt, and
  Fernet's failure becomes `InvalidToken`.
- **File envelope.** The envelope is a JSON object with `metadata` and
  `encrypted_data`, the token in standard base 64.
- **Validation.** `validate_seedphrase_format` checks the word count
  (12, 15, 18, 21 or 24) and that every word is alphabetic.

The class keeps no state, so every method is a pure function here, with its
guards in the source's order and its exact French messages.

- Python exceptions are the `Errors.Error` values of a `Result`.
- Python dictionaries are `Json` values.
- `os.urandom`, `datetime.now` and Fernet's own IV and clock are parameters.
- UTF-8, PBKDF2 and Fernet are the fields of a `Foreign.Primitives` value.
  `Foreign.Lawful` states the only facts the proofs assume about them:
  - UTF-8 decoding undoes encoding;
  - PBKDF2 returns the requested length;
  - Fernet decryption undoes Fernet encryption under the same 32-byte key;
  - tokens are non-empty;
  - tokens made with different 16-byte IVs differ, whatever the keys,
    plaintexts and times. A Fernet token is the URL-safe base 64 text of a
    version byte, a timestamp, the IV, the ciphertext and an HMAC, and base
    64 encoding is injective, so the IV is determined by the token.

Modules:

| module | file | contents |
|---|---|---|
| `Wrappers` | `wrappers.dfy` | `Option`, `Result` |
| `Bytes` | `bytes.dfy` | `byte`, `bytes` |
| `Text` | `text.dfy` | `str.strip`, `str.split`, `str.isalpha`, `str(n)`, `sep.join`, substring test |
| `Base64` | `base64.dfy` | RFC 4648 base 64, section 4 (standard) and section 5 (URL-safe) alphabets |
| `Errors` | `errors.dfy` | the exceptions the encryptor raises or lets through |
| `Json` | `json.dfy` | JSON values, Python's `key in d` and `d[key]` on them |
| `Foreign` | `foreign.dfy` | the library primitives, their laws, and a witness that the laws are consistent |
| `Encryption` | `encryption.dfy` | the encryptor itself |

## Model

| member | source | states |
|---|---|---|
| Encryption.DeriveKey | src/crypto/encryption.py:31-51 | The key text is URL-safe base 64 that decodes to the PBKDF2-HMAC-SHA256 output for the UTF-8 password, the salt, 600000 iterations and length 32. It is 44 characters when that output is 32 bytes. |
| Encryption.DerivedKeyLength | src/crypto/encryption.py:44-50 | Under the primitive laws, PBKDF2 yields exactly 32 bytes and the key text is 44 characters. |
| Encryption.FernetKey | src/crypto/encryption.py:82 | `Fernet(key)` succeeds exactly when the key text decodes as URL-safe base 64 to 32 bytes, and then yields those bytes. Every other key, undecodable or of another length, gets the library's `ValueError("Fernet key must be 32 url-safe base64-encoded bytes.")`. |
| Encryption.FernetAcceptsDerivedKey | src/crypto/encryption.py:79-82 | Fernet always accepts a derived key, and then uses the derived bytes. |
| Encryption.IterationsText | src/crypto/encryption.py:24 | `str(600000)` is "600000". |
| Encryption.StandardB64Decode | src/crypto/encryption.py:125 | Decoding a dictionary value succeeds exactly when it is a string of well-formed standard base 64, and then gives the decoded bytes. A value that is not a string is a `TypeError`. |
| Encryption.NewMetadata | src/crypto/encryption.py:86-93 | The new metadata is a dictionary with exactly the six keys version, algorithm, kdf, iterations, salt and timestamp. Their values are given by `NewMetadataConstants` and `NewMetadataRecords`. |
| Encryption.NewMetadataConstants | src/crypto/encryption.py:87-90 | It records "1.0", "Fernet-AES128-CBC-HMAC", "PBKDF2-HMAC-SHA256" and "600000". |
| Encryption.NewMetadataRecords | src/crypto/encryption.py:91-92 | It records the timestamp, and the salt in standard base 64, which decodes back to the salt. |
| Encryption.NewMetadataFields | src/crypto/encryption.py:86-93 | All of the above together. |
| Encryption.EncryptSeedphrase | src/crypto/encryption.py:53-95 | A blank phrase (empty or only whitespace) gives the empty-phrase `ValueError`. Otherwise a password under 8 characters gives the short-password `ValueError`. On success both guards held, the token is the Fernet encryption of the UTF-8 phrase under the key derived from this password and salt, and the metadata is as described above. |
| Encryption.EncryptSucceedsPastGuards | src/crypto/encryption.py:75-95 | Under the primitive laws, every input that passes both guards is encrypted. |
| Encryption.SaltTextLength | src/crypto/encryption.py:91 | A 32-byte salt is recorded as 44 characters. |
| Encryption.EncryptGuardsComeFirst | src/crypto/encryption.py:69-73 | When a guard fails, the result is the same failure whatever the primitives, salt, IV or clock: no key is derived. |
| Encryption.DecryptSeedphrase | src/crypto/encryption.py:97-138 | Empty data is refused first, then an empty password, then metadata without "salt", each with its own message. A returned string is the UTF-8 reading of what Fernet decrypted under the key derived from the password and the recorded salt. |
| Encryption.CipherFailureIsInvalidToken | src/crypto/encryption.py:130-138 | When Fernet rejects the token, the result is `InvalidToken` with "Échec du déchiffrement…". |
| Encryption.DecryptReadsOnlySalt | src/crypto/encryption.py:121-128 | Two metadata dictionaries that agree on "salt" decrypt alike. The recorded iterations are never read. |
| Encryption.DecryptGuardsComeFirst | src/crypto/encryption.py:115-122 | When a guard fails, the result is a failure independent of the primitives. |
| Encryption.EncryptDecryptRoundTrip | src/crypto/encryption.py:53-138 | Under the primitive laws, decrypting a fresh token with its metadata and the same password gives the phrase back (tests/unit/test_encryption.py:52-64). |
| Encryption.FreshRandomnessGivesDistinctResults | tests/unit/test_encryption.py:176-201 | Two encryptions of one phrase under one password, with different salts and different 16-byte IVs, record different salt texts and give different tokens, and each decrypts to the phrase with its own metadata. |
| Encryption.LoadEncryptedFile | src/crypto/encryption.py:183-197 | A JSON syntax error becomes `ValueError("Format de fichier invalide : …")`. A dictionary without either field gets the missing-fields message. Success happens exactly for a dictionary with both fields whose "encrypted_data" is decodable base-64 text, and returns the decoded bytes and the metadata as stored. Every `ValueError` it raises itself starts with "Format de fichier invalide : ". The base-64 decoder's `binascii.Error` is the separate `Base64Error`, and its message has no such prefix. |
| Encryption.SaveEncryptedFile | src/crypto/encryption.py:156-159 | The saved record has exactly the fields "metadata" and "encrypted_data". The metadata is stored as given, and the token as standard base-64 text that decodes back to it (see also `SaveLoadRoundTrip`). |
| Encryption.SaveLoadRoundTrip | src/crypto/encryption.py:156-159 | Loading the saved record gives back the same token and metadata. |
| Encryption.EncryptSaveLoadDecrypt | src/crypto/encryption.py:53-197 | Encrypting, saving, loading and decrypting gives the phrase back (tests/unit/test_encryption.py:95-129). |
| Encryption.FirstNonAlpha | src/crypto/encryption.py:225-231 | Finds the position of the first non-alphabetic word, or None when there is none. |
| Encryption.NatStrings | src/crypto/encryption.py:220 | `map(str, valid_lengths)`: one text per count, each non-empty decimal digits denoting that count. |
| Encryption.CountMessage | src/crypto/encryption.py:218-222 | The wrong-count message contains "<n> mot(s)" for the count n. |
| Encryption.InvalidWordMessage | src/crypto/encryption.py:227-231 | The invalid-word message contains the word and "caractères invalides". |
| Encryption.ValidateSeedphraseFormat | src/crypto/encryption.py:199-233 | Accepted exactly when the number of whitespace-separated words is 12, 15, 18, 21 or 24 and every word is alphabetic, with "Format valide". A wrong count gives the count message naming the count. With a right count, a rejection names the first non-alphabetic word. |
| Encryption.FirstNonAlphaUnique | src/crypto/encryption.py:225-231 | There is only one first non-alphabetic word. |
| Encryption.InvalidWordReported | src/crypto/encryption.py:224-231 | Single-spaced words in an allowed number with a non-alphabetic word are refused, naming the first such word. |
| Encryption.WrongCountReported | src/crypto/encryption.py:217-222 | Single-spaced words in a disallowed number are refused with the count message. |
| Encryption.AlphaWordsAccepted | src/crypto/encryption.py:211-233 | Single-spaced alphabetic words in an allowed number are accepted. |
| Encryption.RepeatedWordAccepted | tests/unit/test_encryption.py:145-158 | "word" repeated 12 or 24 times is accepted with "Format valide". |
| Encryption.AbandonPhraseAccepted | tests/unit/test_encryption.py:21 | The twelve-word "abandon … about" phrase is accepted. |
| Encryption.TenWordsRefused | tests/unit/test_encryption.py:160-166 | Ten words are refused with "10 mot(s)" in the message. |
| Encryption.NumberedWordsRefused | tests/unit/test_encryption.py:168-174 | word1 … word12 is refused with the invalid-characters message for "word1". |
| Encryption.FirstNumberedWordIsInvalid | tests/unit/test_encryption.py:170 | "word1" is the first non-alphabetic word of word1 … word12. |
| Base64.Encode | src/crypto/encryption.py:91 | The encoding is whole groups of four characters, and empty exactly for no bytes. |
| Base64.EncodeLength | src/crypto/encryption.py:91 | It has four characters per started group of three bytes. |
| Base64.EncodedLength32 | src/crypto/encryption.py:50 | 32 bytes take 44 characters. |
| Base64.CharSextet | src/crypto/encryption.py:125 | A character read as a 6-bit value is the alphabet character for that value. The pad is never a value. |
| Base64.SextetRoundTrip | src/crypto/encryption.py:125 | Every 6-bit value's character reads back as that value. |
| Base64.Decode | src/crypto/encryption.py:194 | A decoded text is a multiple of four characters, and gives three bytes per group of four, less at most two for padding. `DecodeEncode` and `DecodeSomeIffWellFormed` state what it accepts and returns. |
| Base64.DecodeEncode | src/crypto/encryption.py:156-197 | Decoding undoes encoding for every byte string, in both alphabets. |
| Base64.DecodeSomeIffWellFormed | src/crypto/encryption.py:194 | The decoder accepts exactly the well-formed texts: a multiple of four alphabet characters, except that the text may end in "=" or "==". |
| Base64.EncodeWellFormed | src/crypto/encryption.py:158 | Every encoding is well formed. |
| Json.PyIn | src/crypto/encryption.py:191 | `key in d` is key membership on a dictionary, element membership of the string on a list and substring membership on a string. It is a `TypeError` exactly on a number, boolean or null. |
| Json.PyGetItem | src/crypto/encryption.py:194-195 | `d[key]` succeeds exactly on a dictionary holding the key, with its value. |
| Text.IsSpace | src/crypto/encryption.py:211 | Definition of the characters `str.strip()` and `str.split()` treat as whitespace (CPython's list); no whitespace character is a letter. See the Text.IsSpace line under "Left out". |
| Text.IsAlpha | src/crypto/encryption.py:226 | Definition of `w.isalpha()` on ASCII: non-empty and letters only; an accepted word is non-empty and contains no whitespace. See the Text.IsAlpha line under "Left out". |
| Text.LeadingSpace | src/crypto/encryption.py:211 | The leading run of whitespace: all whitespace, followed by a non-whitespace character or the end. |
| Text.TrailingStart | src/crypto/encryption.py:211 | The trailing run of whitespace, likewise. |
| Text.Strip | src/crypto/encryption.py:211 | `s.strip()` is the piece of `s` between its leading and its trailing whitespace. It neither starts nor ends with whitespace. |
| Text.StripEmptyIffBlank | src/crypto/encryption.py:69 | `s.strip()` is empty exactly when `s` is all whitespace. |
| Text.WordEnd | src/crypto/encryption.py:211 | A word runs up to the first whitespace character. |
| Text.Split | src/crypto/encryption.py:211 | Every word of `s.split()` is non-empty and contains no whitespace. |
| Text.SplitStrip | src/crypto/encryption.py:211 | `s.strip().split()` equals `s.split()`. |
| Text.SplitEmptyIffBlank | src/crypto/encryption.py:211 | There are no words exactly when the text is all whitespace. |
| Text.SplitJoin | src/crypto/encryption.py:211 | Splitting non-empty, whitespace-free words joined by single spaces gives the words back. |
| Text.Join | src/crypto/encryption.py:220 | Definition of `sep.join(items)`; the result starts with the first item. Text.SplitJoin gives its round trip with `split()`. |
| Text.NatToString | src/crypto/encryption.py:220-221 | `str(n)` is non-empty decimal digits with no leading zero. |
| Text.NatToStringValue | src/crypto/encryption.py:221 | The digits of `str(n)` denote `n`. |
| Text.NatToStringInjective | src/crypto/encryption.py:221 | Different counts give different texts. |
| Text.Contains | src/crypto/encryption.py:191 | Definition of Python's `needle in hay` on strings; the needle is never longer than the text. |
| Text.ContainsIffOccurs | src/crypto/encryption.py:191 | `needle in hay` holds exactly when `hay[i:i+len(needle)] == needle` for some offset `i`, in both directions. |
| Text.ContainsMiddle | src/crypto/encryption.py:220-221 | A concatenation contains each of its pieces. |
| Foreign.LawsAreSatisfiable | src/crypto/encryption.py:44-50 | A concrete set of primitives satisfies all the laws, with tokens that are URL-safe base 64 ASCII text of Fernet's layout (version byte, timestamp, IV, body), so no lemma that assumes them is vacuous. |

## Left out

- File I/O: opening, reading and writing the file, `json.dump`'s indentation, and the `OSError` rewrapping (src/crypto/encryption.py:161-165, 183-187). `SaveEncryptedFile` returns the JSON value handed to `json.dump`. `LoadEncryptedFile` takes `json.load`'s outcome as a `Result` (a value, or the text of the `JSONDecodeError`). JSON text syntax is not modelled.
- JSON floating-point numbers are not modelled. Numbers are integers, which is enough for `in` and `[]`.
- Dictionary key order is not modelled: a dictionary is a map.
- PBKDF2, SHA-256, AES, HMAC and Fernet's token format are foreign primitives with stated laws. So the model does not say that the ciphertext hides the phrase, nor that a wrong password is rejected (tests/unit/test_encryption.py:66-75). A wrong key is only shown to end in `InvalidToken` when Fernet rejects the token (`CipherFailureIsInvalidToken`).
- `Fernet(key)` is modelled only to its key check (URL-safe base 64 of 32 bytes). Both ways a key can fail, undecodable or of the wrong length, give the `ValueError` that `cryptography`'s `Fernet.__init__` raises in its current releases, which catch `binascii.Error`. The derived key is modelled as its ASCII text.
- `os.urandom`, `datetime.now(UTC).isoformat()` and Fernet's IV and clock are parameters. Randomness is not modelled. Fresh output is assumed only in `FreshRandomnessGivesDistinctResults`, as a requirement that the two salts differ and the two IVs differ. The timestamp format is not modelled.
- Base64.Decode: `base64.b64decode` without `validate=True` drops characters outside the alphabet before decoding, and a non-ASCII `str` raises `ValueError`. The model's decoder is strict and accepts only well-formed text. Every other stored salt or token text is reported as one `Base64Error`.
- Text.IsAlpha: `str.isalpha()` accepts every Unicode letter, while the model accepts ASCII letters only. A phrase with accented letters is refused here and accepted by the source.
- Text.IsSpace: the whitespace set is CPython's fixed list. Unicode database versions are not modelled.
- UTF-8 encoding of lone surrogates (`UnicodeEncodeError`) is not modelled. Dafny's `char` holds Unicode scalar values only, so none can occur.
- The class constructor (src/crypto/encryption.py:27-29) does nothing and is not modelled.
- Decryption always uses the class constant of 600 000 iterations and never reads the recorded "iterations". An envelope that records another count is still decrypted with 600 000 iterations (`DecryptReadsOnlySalt`).
