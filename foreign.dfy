/** The library calls the encryptor makes and cannot be looked into: UTF-8
    text encoding (`str.encode`, `bytes.decode`), PBKDF2-HMAC-SHA256 from
    `cryptography.hazmat` and the Fernet cipher from `cryptography.fernet`.
    They are the fields of a `Primitives` value that every operation takes as
    a parameter, so each is a mathematical function: the same inputs always
    give the same output, which is the determinism decryption depends on.
    `Lawful` states the only facts about them that the proofs use. */
module Foreign {
  import opened Wrappers
  import opened Bytes
  import opened Base64

  datatype Primitives = Primitives(
    /** `s.encode()` */
    utf8Encode: string -> bytes,
    /** `b.decode()`, None where it raises `UnicodeDecodeError` */
    utf8Decode: bytes -> Option<string>,
    /** `PBKDF2HMAC(algorithm=SHA256(), length, salt, iterations).derive(password)`,
        arguments in the order password, salt, iterations, length */
    pbkdf2HmacSha256: (bytes, bytes, nat, nat) -> bytes,
    /** `Fernet.encrypt` under a 32-byte key, arguments in the order key,
        plaintext, initialisation vector (its `os.urandom(16)`), current time
        (its `time.time()`) */
    fernetEncrypt: (bytes, bytes, bytes, int) -> bytes,
    /** `Fernet.decrypt` under a 32-byte key, None where it raises `InvalidToken` */
    fernetDecrypt: (bytes, bytes) -> Option<bytes>)

  /** Length of a Fernet initialisation vector. */
  const IvLength: nat := 16

  /** Decoding undoes UTF-8 encoding; PBKDF2 returns the requested number of
      bytes; Fernet decryption under a key undoes Fernet encryption under the
      same key; a Fernet token is never empty; and tokens made with
      different 16-byte IVs differ. The last holds of Fernet because a token
      is the URL-safe base 64 text of a version byte, a timestamp, the IV,
      the ciphertext and an HMAC, and base 64 encoding is injective. */
  ghost predicate Lawful(p: Primitives)
  {
    && (forall s :: p.utf8Decode(p.utf8Encode(s)) == Some(s))
    && (forall password, salt, iterations, length ::
          |p.pbkdf2HmacSha256(password, salt, iterations, length)| == length)
    && (forall key, plain, iv, time | |key| == 32 ::
          p.fernetDecrypt(key, p.fernetEncrypt(key, plain, iv, time)) == Some(plain))
    && (forall key, plain, iv, time :: |p.fernetEncrypt(key, plain, iv, time)| > 0)
    && (forall key1, key2, plain1, plain2, iv1, iv2, time1, time2
          | |iv1| == IvLength && |iv2| == IvLength && iv1 != iv2 ::
          p.fernetEncrypt(key1, plain1, iv1, time1) != p.fernetEncrypt(key2, plain2, iv2, time2))
  }

  // A witness that the laws can all hold at once, so that the lemmas which
  // assume them are not vacuous. Its tokens have Fernet's shape (URL-safe
  // base 64 text of the version, timestamp and IV), but it does not encrypt.

  /** Three bytes per character, most significant first. */
  function CharBytes(c: char): bytes
  {
    var n := c as int;
    [n / 65536, (n / 256) % 256, n % 256]
  }

  function WitnessEncode(s: string): bytes
  {
    if |s| == 0 then [] else CharBytes(s[0]) + WitnessEncode(s[1..])
  }

  function WitnessChar(b0: byte, b1: byte, b2: byte): Option<char>
  {
    var n := b0 * 65536 + b1 * 256 + b2;
    if n < 0xD800 || 0xE000 <= n < 0x11_0000 then Some(n as char) else None
  }

  function WitnessDecode(b: bytes): Option<string>
    decreases |b|
  {
    if |b| == 0 then Some([])
    else if |b| < 3 then None
    else
      match WitnessChar(b[0], b[1], b[2])
      case None => None
      case Some(c) =>
        match WitnessDecode(b[3..])
        case None => None
        case Some(rest) => Some([c] + rest)
  }

  lemma CharBytesRoundTrip(c: char)
    ensures var b := CharBytes(c); WitnessChar(b[0], b[1], b[2]) == Some(c)
  {
    var n := c as int;
    assert n == (n / 65536) * 65536 + ((n / 256) % 256) * 256 + n % 256;
  }

  lemma {:induction false} WitnessRoundTrip(s: string)
    ensures WitnessDecode(WitnessEncode(s)) == Some(s)
    decreases |s|
  {
    if |s| > 0 {
      var b := WitnessEncode(s);
      CharBytesRoundTrip(s[0]);
      WitnessRoundTrip(s[1..]);
      assert b[..3] == CharBytes(s[0]) && b[3..] == WitnessEncode(s[1..]);
      assert [s[0]] + s[1..] == s;
    }
  }

  /** The bytes of an ASCII text. */
  function AsciiBytes(s: string): bytes
  {
    seq(|s|, i requires 0 <= i < |s| => (s[i] as int) % 256)
  }

  /** The text of a byte string read as Latin-1 (ASCII for bytes below 128). */
  function AsciiText(b: bytes): string
  {
    seq(|b|, i requires 0 <= i < |b| => b[i] as char)
  }

  lemma AsciiRoundTrip(s: string)
    requires forall i | 0 <= i < |s| :: s[i] as int < 128
    ensures AsciiText(AsciiBytes(s)) == s
  {
  }

  /** The characters of an encoding are ASCII. */
  lemma SextetCharIsAscii(a: Alphabet, c: char)
    requires IsSextetChar(a, c) || c == Pad
    ensures c as int < 128
  {
    if IsSextetChar(a, c) {
      assert c == SextetChar(a, CharSextet(a, c).value);
    }
  }

  /** Every character of an encoding is ASCII. */
  lemma EncodeIsAscii(a: Alphabet, b: bytes)
    ensures forall i | 0 <= i < |Base64.Encode(a, b)| :: Base64.Encode(a, b)[i] as int < 128
  {
    var s := Base64.Encode(a, b);
    EncodeWellFormed(a, b);
    forall i | 0 <= i < |s| ensures s[i] as int < 128 {
      if i < |s| - 2 {
        SextetCharIsAscii(a, s[i]);
      } else if i == |s| - 2 {
        SextetCharIsAscii(a, s[|s| - 2]);
      } else {
        SextetCharIsAscii(a, s[|s| - 1]);
      }
    }
  }

  /** The decoded layout of a witness token: the version byte 0x80, eight
      zero bytes for the timestamp, the IV (or sixteen zero bytes when it is
      not 16 bytes long), then the plaintext in place of the ciphertext. */
  function WitnessLayout(plain: bytes, iv: bytes): bytes
  {
    [0x80] + seq(8, _ => 0) + (if |iv| == IvLength then iv else seq(IvLength, _ => 0)) + plain
  }

  /** A witness token: its layout as URL-safe base 64 text, as Fernet's are. */
  function WitnessToken(plain: bytes, iv: bytes): bytes
  {
    AsciiBytes(Base64.Encode(UrlSafe, WitnessLayout(plain, iv)))
  }

  /** The layout a witness token decodes to, if any. */
  function WitnessUnwrap(token: bytes): Option<bytes>
  {
    match Base64.Decode(UrlSafe, AsciiText(token))
    case None => None
    case Some(layout) => if |layout| < 9 + IvLength then None else Some(layout)
  }

  lemma WitnessUnwrapToken(plain: bytes, iv: bytes)
    ensures WitnessUnwrap(WitnessToken(plain, iv)) == Some(WitnessLayout(plain, iv))
  {
    var layout := WitnessLayout(plain, iv);
    EncodeIsAscii(UrlSafe, layout);
    AsciiRoundTrip(Base64.Encode(UrlSafe, layout));
    DecodeEncode(UrlSafe, layout);
  }

  function WitnessPrimitives(): Primitives
  {
    Primitives(
      WitnessEncode,
      WitnessDecode,
      (password: bytes, salt: bytes, iterations: nat, length: nat) => seq(length, _ => 0),
      (key: bytes, plain: bytes, iv: bytes, time: int) => WitnessToken(plain, iv),
      (key: bytes, token: bytes) =>
        match WitnessUnwrap(token)
        case None => None
        case Some(layout) => Some(layout[9 + IvLength..]))
  }

  /** The laws are consistent, with tokens that are base 64 text: some
      primitives satisfy all of them. */
  lemma LawsAreSatisfiable()
    ensures Lawful(WitnessPrimitives())
  {
    var p := WitnessPrimitives();
    forall s: string ensures p.utf8Decode(p.utf8Encode(s)) == Some(s) {
      WitnessRoundTrip(s);
    }
    forall key: bytes, plain: bytes, iv: bytes, time: int
      ensures p.fernetDecrypt(key, p.fernetEncrypt(key, plain, iv, time)) == Some(plain)
      ensures |p.fernetEncrypt(key, plain, iv, time)| > 0
    {
      WitnessUnwrapToken(plain, iv);
      var layout := WitnessLayout(plain, iv);
      assert layout[9 + IvLength..] == plain;
      assert |Base64.Encode(UrlSafe, layout)| > 0;
    }
    forall key1: bytes, key2: bytes, plain1: bytes, plain2: bytes, iv1: bytes, iv2: bytes, time1: int, time2: int
      | |iv1| == IvLength && |iv2| == IvLength && iv1 != iv2
      ensures p.fernetEncrypt(key1, plain1, iv1, time1) != p.fernetEncrypt(key2, plain2, iv2, time2)
    {
      WitnessUnwrapToken(plain1, iv1);
      WitnessUnwrapToken(plain2, iv2);
      assert WitnessLayout(plain1, iv1)[9..9 + IvLength] == iv1;
      assert WitnessLayout(plain2, iv2)[9..9 + IvLength] == iv2;
    }
  }
}
