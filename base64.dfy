/** Base 64 encoding as defined in RFC 4648: section 4 (the standard
    alphabet, used by `base64.b64encode`/`b64decode`) and section 5 (the URL-
    and filename-safe alphabet, used by `base64.urlsafe_b64encode`/
    `urlsafe_b64decode`). Both pad with '=' to a multiple of four characters. */
module Base64 {
  import opened Wrappers
  import opened Bytes

  datatype Alphabet = Standard | UrlSafe

  const Pad: char := '='

  /** The characters for values 62 and 63 (the only difference between the
      two alphabets). */
  function Char62(a: Alphabet): char
  {
    if a == Standard then '+' else '-'
  }

  function Char63(a: Alphabet): char
  {
    if a == Standard then '/' else '_'
  }

  /** The character for a 6-bit value (table 1 of section 4, table 2 of
      section 5). */
  function SextetChar(a: Alphabet, v: nat): (c: char)
    requires v < 64
  {
    if v < 26 then ('A' as int + v) as char
    else if v < 52 then ('a' as int + (v - 26)) as char
    else if v < 62 then ('0' as int + (v - 52)) as char
    else if v == 62 then Char62(a)
    else Char63(a)
  }

  /** The 6-bit value of an alphabet character; None for any other
      character, the pad character included. */
  function CharSextet(a: Alphabet, c: char): (r: Option<nat>)
    ensures r.Some? ==> r.value < 64 && SextetChar(a, r.value) == c
    ensures c == Pad ==> r.None?
  {
    if 'A' <= c <= 'Z' then Some(c as int - 'A' as int)
    else if 'a' <= c <= 'z' then Some(c as int - 'a' as int + 26)
    else if '0' <= c <= '9' then Some(c as int - '0' as int + 52)
    else if c == Char62(a) then Some(62)
    else if c == Char63(a) then Some(63)
    else None
  }

  /** Every value's character is read back as that value. */
  lemma SextetRoundTrip(a: Alphabet, v: nat)
    requires v < 64
    ensures CharSextet(a, SextetChar(a, v)) == Some(v)
  {
  }

  predicate IsSextetChar(a: Alphabet, c: char)
  {
    CharSextet(a, c).Some?
  }

  /** Three bytes become four characters, six bits each, most significant
      bits first. */
  function EncodeQuantum(a: Alphabet, b0: byte, b1: byte, b2: byte): string
  {
    [ SextetChar(a, b0 / 4),
      SextetChar(a, (b0 % 4) * 16 + b1 / 16),
      SextetChar(a, (b1 % 16) * 4 + b2 / 64),
      SextetChar(a, b2 % 64) ]
  }

  /** The encoding of `b`, in groups of four characters, empty only for no
      bytes; a final group of one or two bytes is completed with zero bits
      and padded with "==" or "=". */
  function Encode(a: Alphabet, b: bytes): (s: string)
    ensures |s| % 4 == 0
    ensures |s| == 0 <==> |b| == 0
    decreases |b|
  {
    if |b| == 0 then []
    else if |b| == 1 then
      [SextetChar(a, b[0] / 4), SextetChar(a, (b[0] % 4) * 16), Pad, Pad]
    else if |b| == 2 then
      [SextetChar(a, b[0] / 4), SextetChar(a, (b[0] % 4) * 16 + b[1] / 16), SextetChar(a, (b[1] % 16) * 4), Pad]
    else
      EncodeQuantum(a, b[0], b[1], b[2]) + Encode(a, b[3..])
  }

  /** Four characters for every started group of three bytes. */
  lemma {:induction false} EncodeLength(a: Alphabet, b: bytes)
    ensures |Encode(a, b)| == 4 * ((|b| + 2) / 3)
    decreases |b|
  {
    if |b| > 2 {
      EncodeLength(a, b[3..]);
      assert (|b| + 2) / 3 == (|b[3..]| + 2) / 3 + 1;
    }
  }

  /** 32 bytes (a salt, a derived key) take 44 characters. */
  lemma EncodedLength32(a: Alphabet, b: bytes)
    requires |b| == 32
    ensures |Encode(a, b)| == 44
  {
    EncodeLength(a, b);
    assert (32 + 2) / 3 == 11;
  }

  function Byte0(v0: nat, v1: nat): byte
    requires v0 < 64 && v1 < 64
  {
    v0 * 4 + v1 / 16
  }

  function Byte1(v1: nat, v2: nat): byte
    requires v1 < 64 && v2 < 64
  {
    (v1 % 16) * 16 + v2 / 4
  }

  function Byte2(v2: nat, v3: nat): byte
    requires v2 < 64 && v3 < 64
  {
    (v2 % 4) * 64 + v3
  }

  /** Four alphabet characters become three bytes. */
  function DecodeQuantum(a: Alphabet, q: string): Option<bytes>
    requires |q| == 4
  {
    var v0, v1, v2, v3 := CharSextet(a, q[0]), CharSextet(a, q[1]), CharSextet(a, q[2]), CharSextet(a, q[3]);
    if v0.None? || v1.None? || v2.None? || v3.None? then None
    else Some([Byte0(v0.value, v1.value), Byte1(v1.value, v2.value), Byte2(v2.value, v3.value)])
  }

  /** The last group of four characters, which may end in "==" (one byte) or
      "=" (two bytes). Bits left over after the last byte are ignored. */
  function DecodeFinalQuantum(a: Alphabet, q: string): Option<bytes>
    requires |q| == 4
  {
    var v0, v1, v2 := CharSextet(a, q[0]), CharSextet(a, q[1]), CharSextet(a, q[2]);
    if v0.None? || v1.None? then None
    else if q[2] == Pad && q[3] == Pad then Some([Byte0(v0.value, v1.value)])
    else if v2.None? then None
    else if q[3] == Pad then Some([Byte0(v0.value, v1.value), Byte1(v1.value, v2.value)])
    else DecodeQuantum(a, q)
  }

  /** Decoding: None for any text that is not a well-formed encoding. */
  function Decode(a: Alphabet, s: string): (r: Option<bytes>)
    ensures r.Some? ==> |s| % 4 == 0
    ensures r.Some? ==> |r.value| <= 3 * (|s| / 4) <= |r.value| + 2
    decreases |s|
  {
    if |s| == 0 then Some([])
    else if |s| < 4 then None
    else if |s| == 4 then DecodeFinalQuantum(a, s)
    else
      match DecodeQuantum(a, s[..4])
      case None => None
      case Some(head) =>
        match Decode(a, s[4..])
        case None => None
        case Some(tail) => Some(head + tail)
  }

  /** The texts a decoder accepts, stated on their own: a multiple of four
      characters, all of them alphabet characters except that the text may
      end in "=" or "==". */
  predicate WellFormed(a: Alphabet, s: string)
  {
    && |s| % 4 == 0
    && (forall i | 0 <= i < |s| - 2 :: IsSextetChar(a, s[i]))
    && (|s| >= 4 ==>
          || (IsSextetChar(a, s[|s| - 2]) && (IsSextetChar(a, s[|s| - 1]) || s[|s| - 1] == Pad))
          || (s[|s| - 2] == Pad && s[|s| - 1] == Pad))
  }

  /** The three bytes are recovered from their four sextets. */
  lemma QuantumBytes(b0: byte, b1: byte, b2: byte)
    ensures Byte0(b0 / 4, (b0 % 4) * 16 + b1 / 16) == b0
    ensures Byte1((b0 % 4) * 16 + b1 / 16, (b1 % 16) * 4 + b2 / 64) == b1
    ensures Byte2((b1 % 16) * 4 + b2 / 64, b2 % 64) == b2
  {
    var hi0, lo1 := b0 % 4, b1 / 16;
    assert (hi0 * 16 + lo1) / 16 == hi0 && (hi0 * 16 + lo1) % 16 == lo1;
    var hi1, lo2 := b1 % 16, b2 / 64;
    assert (hi1 * 4 + lo2) / 4 == hi1 && (hi1 * 4 + lo2) % 4 == lo2;
  }

  /** Four alphabet characters are read back as their values. */
  lemma DecodeQuantumOfSextets(a: Alphabet, v0: nat, v1: nat, v2: nat, v3: nat)
    requires v0 < 64 && v1 < 64 && v2 < 64 && v3 < 64
    ensures DecodeQuantum(a, [SextetChar(a, v0), SextetChar(a, v1), SextetChar(a, v2), SextetChar(a, v3)])
         == Some([Byte0(v0, v1), Byte1(v1, v2), Byte2(v2, v3)])
  {
    SextetRoundTrip(a, v0);
    SextetRoundTrip(a, v1);
    SextetRoundTrip(a, v2);
    SextetRoundTrip(a, v3);
  }

  lemma QuantumRoundTrip(a: Alphabet, b0: byte, b1: byte, b2: byte)
    ensures DecodeQuantum(a, EncodeQuantum(a, b0, b1, b2)) == Some([b0, b1, b2])
  {
    DecodeQuantumOfSextets(a, b0 / 4, (b0 % 4) * 16 + b1 / 16, (b1 % 16) * 4 + b2 / 64, b2 % 64);
    QuantumBytes(b0, b1, b2);
  }

  lemma OneByteRoundTrip(a: Alphabet, b: bytes)
    requires |b| == 1
    ensures Decode(a, Encode(a, b)) == Some(b)
  {
    var v0, v1 := b[0] / 4, (b[0] % 4) * 16;
    SextetRoundTrip(a, v0);
    SextetRoundTrip(a, v1);
    assert Byte0(v0, v1) == b[0];
    var s := Encode(a, b);
    assert s == [SextetChar(a, v0), SextetChar(a, v1), Pad, Pad];
    assert Decode(a, s) == DecodeFinalQuantum(a, s);
    assert DecodeFinalQuantum(a, s) == Some([Byte0(v0, v1)]);
    assert b == [b[0]];
  }

  lemma TwoBytesRoundTrip(a: Alphabet, b: bytes)
    requires |b| == 2
    ensures Decode(a, Encode(a, b)) == Some(b)
  {
    var v0, v1, v2 := b[0] / 4, (b[0] % 4) * 16 + b[1] / 16, (b[1] % 16) * 4;
    SextetRoundTrip(a, v0);
    SextetRoundTrip(a, v1);
    SextetRoundTrip(a, v2);
    assert v1 / 16 == b[0] % 4 && v1 % 16 == b[1] / 16 && v2 / 4 == b[1] % 16;
    assert Byte0(v0, v1) == b[0];
    assert Byte1(v1, v2) == b[1];
    var s := Encode(a, b);
    assert s == [SextetChar(a, v0), SextetChar(a, v1), SextetChar(a, v2), Pad];
    assert Decode(a, s) == DecodeFinalQuantum(a, s);
    assert DecodeFinalQuantum(a, s) == Some([Byte0(v0, v1), Byte1(v1, v2)]);
    assert b == [b[0], b[1]];
  }

  lemma ThreeBytesRoundTrip(a: Alphabet, b: bytes)
    requires |b| == 3
    ensures Decode(a, Encode(a, b)) == Some(b)
  {
    var q := EncodeQuantum(a, b[0], b[1], b[2]);
    QuantumRoundTrip(a, b[0], b[1], b[2]);
    assert Encode(a, b) == q + [] == q;
    assert Decode(a, q) == DecodeFinalQuantum(a, q) == DecodeQuantum(a, q);
    assert b == [b[0], b[1], b[2]];
  }

  /** The first group of four characters of a longer encoding is the
      encoding of the first three bytes, and decodes to them. */
  lemma EncodeHead(a: Alphabet, b: bytes)
    requires |b| > 3
    ensures |Encode(a, b)| > 4
    ensures Encode(a, b)[4..] == Encode(a, b[3..])
    ensures DecodeQuantum(a, Encode(a, b)[..4]) == Some(b[..3])
  {
    var q := EncodeQuantum(a, b[0], b[1], b[2]);
    assert Encode(a, b) == q + Encode(a, b[3..]);
    QuantumRoundTrip(a, b[0], b[1], b[2]);
    assert b[..3] == [b[0], b[1], b[2]];
  }

  /** One step of the round trip: a first group of three bytes in front of
      bytes that already round-trip. */
  lemma LongRoundTripStep(a: Alphabet, b: bytes)
    requires |b| > 3
    requires Decode(a, Encode(a, b[3..])) == Some(b[3..])
    ensures Decode(a, Encode(a, b)) == Some(b)
  {
    EncodeHead(a, b);
    assert b[..3] + b[3..] == b;
  }

  /** Decoding undoes encoding, for every byte string and both alphabets. */
  lemma {:induction false} DecodeEncode(a: Alphabet, b: bytes)
    ensures Decode(a, Encode(a, b)) == Some(b)
    decreases |b|
  {
    if |b| == 1 {
      OneByteRoundTrip(a, b);
    } else if |b| == 2 {
      TwoBytesRoundTrip(a, b);
    } else if |b| == 3 {
      ThreeBytesRoundTrip(a, b);
    } else if |b| > 3 {
      DecodeEncode(a, b[3..]);
      LongRoundTripStep(a, b);
    }
  }

  /** A text of more than four characters is well formed exactly when its
      first four characters are alphabet characters and the rest is well
      formed. */
  lemma WellFormedStep(a: Alphabet, s: string)
    requires |s| > 4
    ensures WellFormed(a, s) <==>
              (forall i | 0 <= i < 4 :: IsSextetChar(a, s[i])) && WellFormed(a, s[4..])
  {
    var t := s[4..];
    if (forall i | 0 <= i < 4 :: IsSextetChar(a, s[i])) && WellFormed(a, t) {
      forall i | 0 <= i < |s| - 2 ensures IsSextetChar(a, s[i]) {
        if i >= 4 { assert s[i] == t[i - 4]; }
      }
      assert s[|s| - 2] == t[|t| - 2] && s[|s| - 1] == t[|t| - 1];
    }
    if WellFormed(a, s) {
      forall i | 0 <= i < |t| - 2 ensures IsSextetChar(a, t[i]) {
        assert t[i] == s[i + 4];
      }
      assert s[|s| - 2] == t[|t| - 2] && s[|s| - 1] == t[|t| - 1];
    }
  }

  lemma DecodeQuantumSomeIff(a: Alphabet, q: string)
    requires |q| == 4
    ensures DecodeQuantum(a, q).Some? <==> forall i | 0 <= i < 4 :: IsSextetChar(a, q[i])
  {
    if forall i | 0 <= i < 4 :: IsSextetChar(a, q[i]) {
      assert IsSextetChar(a, q[0]) && IsSextetChar(a, q[1]) && IsSextetChar(a, q[2]) && IsSextetChar(a, q[3]);
    }
  }

  /** The decoder accepts exactly the well-formed texts. */
  lemma {:induction false} DecodeSomeIffWellFormed(a: Alphabet, s: string)
    ensures Decode(a, s).Some? <==> WellFormed(a, s)
    decreases |s|
  {
    if |s| == 4 {
      DecodeQuantumSomeIff(a, s);
      if WellFormed(a, s) {
        assert IsSextetChar(a, s[0]) && IsSextetChar(a, s[1]);
      }
    } else if |s| > 4 {
      DecodeQuantumSomeIff(a, s[..4]);
      assert forall i | 0 <= i < 4 :: s[..4][i] == s[i];
      DecodeSomeIffWellFormed(a, s[4..]);
      WellFormedStep(a, s);
    }
  }

  /** Every encoding is well formed. */
  lemma EncodeWellFormed(a: Alphabet, b: bytes)
    ensures WellFormed(a, Encode(a, b))
  {
    DecodeEncode(a, b);
    DecodeSomeIffWellFormed(a, Encode(a, b));
  }
}
