/** The Steam-flavoured TOTP generator: a 30-second time step, the 8-byte
    HOTP counter message, HMAC-SHA1 over it with the base64-decoded secret,
    dynamic truncation of the digest to 31 bits, and five base-26 digits
    written with a 26-symbol alphabet, least significant first.

    HMAC-SHA1 and base64 decoding are library code: they enter the model as
    the fields of a `Primitives` value, so every result here holds for every
    choice of them. */
module SteamTotp {
  import opened Arith
  import opened Wrappers
  import opened ByteOrder

  /** The code alphabet: digits and consonants that cannot be mistaken for
      one another (no 0, 1, A, E, I, L, O, S, U, Z). */
  const CHARS: seq<char> :=
    ['2', '3', '4', '5', '6', '7', '8', '9', 'B', 'C', 'D', 'F', 'G', 'H', 'J', 'K', 'M',
     'N', 'P', 'Q', 'R', 'T', 'V', 'W', 'X', 'Y']

  /** `CHARS.len() as u32`, the base of the code's digits. */
  const CHARS_LEN: u32 := |CHARS|

  /** Number of symbols in a code: the encoder runs over `0..5`. */
  const CODE_LENGTH: nat := 5

  /** Seconds per time step. */
  const PERIOD: u32 := 30

  /** An HMAC-SHA1 digest is 20 bytes. */
  type Digest = d: seq<byte> | |d| == 20 witness Zeros(20)

  /** The library primitives the generator calls: standard base64 decoding
      (None on malformed input) and HMAC-SHA1 of a message under a key. */
  datatype Primitives = Primitives(
    base64Decode: string -> Option<seq<byte>>,
    hmacSha1: (seq<byte>, seq<byte>) -> Digest)

  /** What a call can fail with: a secret that is not base64, or a cursor
      read or write that fails. */
  datatype AuthError = InvalidSecret | Io(cause: IoError)

  /** A keyed HMAC-SHA1 context: the key it was created with and the message
      bytes fed to it so far. */
  datatype Mac = Mac(key: seq<byte>, message: seq<byte>)

  // ---------------------------------------------------------------------------
  // The alphabet

  /** A symbol of the code alphabet. */
  predicate IsCodeChar(c: char) {
    c in CHARS
  }

  /** A well-formed code: exactly CODE_LENGTH symbols of the alphabet. */
  predicate IsCode(code: string) {
    |code| == CODE_LENGTH && forall i :: 0 <= i < |code| ==> IsCodeChar(code[i])
  }

  /** No symbol occurs twice. */
  predicate Distinct(s: seq<char>) {
    forall i, j :: 0 <= i < j < |s| ==> s[i] != s[j]
  }

  /** Symbols in strictly increasing order stay increasing at any distance. */
  lemma {:induction false} IncreasingEverywhere(s: seq<char>)
    requires forall i :: 0 < i < |s| ==> s[i - 1] < s[i]
    ensures forall i, j :: 0 <= i < j < |s| ==> s[i] < s[j]
  {
    if |s| > 1 {
      var n := |s|;
      var t := s[..n - 1];
      IncreasingEverywhere(t);
      forall i | 0 <= i < n - 1
        ensures s[i] < s[n - 1]
      {
        if i < n - 2 {
          assert t[i] < t[n - 2];
        }
      }
    }
  }

  /** The alphabet has 26 pairwise distinct symbols, so `n % 26` always
      indexes it and each symbol stands for exactly one digit. */
  lemma AlphabetDistinct()
    ensures CHARS_LEN == 26 && Distinct(CHARS)
  {
    IncreasingEverywhere(CHARS);
  }

  /** The look-alike characters 0, 1, A, E, I, L, O, S, U and Z are not
      code symbols. */
  lemma NoLookAlikes()
    ensures forall c :: c in "01AEILOSUZ" ==> !IsCodeChar(c)
  {
    forall i | 0 <= i < |CHARS|
      ensures CHARS[i] !in "01AEILOSUZ"
    {
      var c := CHARS[i];
      assert '2' <= c <= '9' || 'B' <= c <= 'D' || 'F' <= c <= 'H' || 'J' <= c <= 'K'
        || 'M' <= c <= 'N' || 'P' <= c <= 'R' || c == 'T' || 'V' <= c <= 'Y';
    }
  }

  /** The first position of c in s. */
  function IndexIn(s: seq<char>, c: char): (i: nat)
    requires c in s
    ensures i < |s| && s[i] == c
    ensures forall j :: 0 <= j < i ==> s[j] != c
  {
    if s[0] == c then 0 else 1 + IndexIn(s[1..], c)
  }

  /** In a sequence of distinct symbols, each symbol is found at its own
      position. */
  lemma IndexInDistinct(s: seq<char>, i: nat)
    requires Distinct(s) && i < |s|
    ensures IndexIn(s, s[i]) == i
  {
  }

  // ---------------------------------------------------------------------------
  // Time step and counter message

  /** The number of whole 30-second periods in a Unix time. */
  function TimeStep(time: u32): (step: u32)
    ensures step * PERIOD <= time < step * PERIOD + PERIOD
  {
    time / PERIOD
  }

  /** The HOTP moving factor of section 5.2 of RFC 4226 for the TOTP step of
      section 4 of RFC 6238: the time step as an 8-byte big-endian counter. */
  function CounterBytes(time: u32): (msg: seq<byte>)
    ensures |msg| == 8
  {
    ToBigEndian(TimeStep(time), 8)
  }

  /** The counter message is four zero bytes followed by the big-endian time
      step, and read back as a 64-bit big-endian number it is the time step. */
  lemma CounterBytesLayout(time: u32)
    ensures CounterBytes(time)[..4] == [0, 0, 0, 0]
    ensures CounterBytes(time)[4..] == ToBigEndian(TimeStep(time), 4)
    ensures FromBigEndian(CounterBytes(time)) == time / 30
  {
    var step := TimeStep(time);
    assert Pow(256, 4) == 0x1_0000_0000;
    ToBigEndianWiden(step, 4, 4);
    assert CounterBytes(time) == Zeros(4) + ToBigEndian(step, 4);
    assert CounterBytes(time)[..4] == Zeros(4);
    FromToBigEndian(step, 8);
    assert Pow(256, 8) == 0x1_0000_0000_0000_0000;
  }

  /** Two times give the same counter message exactly when they fall in the
      same 30-second step. */
  lemma {:induction false} CounterBytesSameStep(t1: u32, t2: u32)
    ensures CounterBytes(t1) == CounterBytes(t2) <==> t1 / 30 == t2 / 30
  {
    CounterBytesLayout(t1);
    CounterBytesLayout(t2);
  }

  /** The last second of a step and the first second of the next give
      different counter messages. */
  lemma StepBoundary(k: u32)
    requires 1 <= k && 30 * k < 0x1_0000_0000
    ensures CounterBytes(30 * k - 1) != CounterBytes(30 * k)
  {
    CounterBytesSameStep(30 * k - 1, 30 * k);
  }

  /** The counter for the test vector's time 1634603498: time step
      54486783 = 0x033F66FF. */
  lemma KnownVectorCounter()
    ensures CounterBytes(1634603498) == [0, 0, 0, 0, 0x03, 0x3F, 0x66, 0xFF]
  {
    assert TimeStep(1634603498) == 54486783;
    var bs := CounterBytes(1634603498);
    CounterBytesLayout(1634603498);
    assert FromBigEndian(bs[4..]) == 54486783 by {
      WordRoundTrip(54486783);
    }
    FromBigEndian4(bs[4..]);
    ToFromBigEndian(bs[4..]);
    var w := [0x03, 0x3F, 0x66, 0xFF];
    FromBigEndian4(w);
    ToFromBigEndian(w);
    assert bs[4..] == w;
    assert bs == bs[..4] + bs[4..];
  }

  /** `get_hmac`: decode the secret, key an HMAC-SHA1 context with it, write
      the counter into a zeroed 8-byte buffer as two big-endian 32-bit words
      (0, then the time step) and feed the buffer to the context. A secret
      that is not base64 gives InvalidSecret; the buffer writes always fit. */
  method GetHmac(p: Primitives, secret: string, time: u32) returns (r: Result<Mac, AuthError>)
    ensures p.base64Decode(secret).None? ==> r == Err(InvalidSecret)
    ensures p.base64Decode(secret).Some? ==> r == Ok(Mac(p.base64Decode(secret).value, CounterBytes(time)))
  {
    var decoded := p.base64Decode(secret);
    if decoded.None? {
      return Err(InvalidSecret);
    }
    var mac := Mac(decoded.value, []);
    var buf := new Cursor(8);
    // Each `?` after a write would pass WriteZero on; both words fit in
    // the 8-byte buffer, so neither branch is taken.
    var w := buf.WriteU32(0);
    if w.Err? {
      assert false;
    }
    w := buf.WriteU32(time / PERIOD);
    if w.Err? {
      assert false;
    }
    var bytes := buf.data[..];
    assert bytes == Zeros(4) + ToBigEndian(TimeStep(time), 4);
    CounterBytesLayout(time);
    assert CounterBytes(time) == CounterBytes(time)[..4] + CounterBytes(time)[4..];
    mac := mac.(message := mac.message + bytes);
    assert mac.message == bytes;
    assert bytes == CounterBytes(time);
    return Ok(mac);
  }

  /** `finalize`: the digest of everything fed to the context. */
  function Finalize(p: Primitives, mac: Mac): Digest {
    p.hmacSha1(mac.key, mac.message)
  }

  // ---------------------------------------------------------------------------
  // Dynamic truncation

  /** `b & 0x0F`: the low four bits of a byte. */
  function LowNibble(b: byte): (r: byte)
    ensures r < 16 && r == b % 16
  {
    BitAndLowMask(b, 4);
    assert Pow(2, 4) == 16;
    BitAnd(b, 0x0F)
  }

  /** `b & 0x7F`: a byte with its top bit cleared. */
  function ClearTopBit(b: byte): (r: byte)
    ensures r < 0x80 && r == b % 0x80
  {
    BitAndLowMask(b, 7);
    assert Pow(2, 7) == 0x80;
    BitAnd(b, 0x7F)
  }

  /** `v & 0x7FFFFFFF` on a u32: bit 31 is cleared, which is the top bit of
      the most significant byte of its big-endian layout; nothing else
      changes. */
  function Mask31(v: u32): (r: u32)
    ensures r < 0x8000_0000
    ensures var bs := ToBigEndian(v, 4); ToBigEndian(r, 4) == [ClearTopBit(bs[0])] + bs[1..]
  {
    BitAndLowMask(v, 31);
    TwoToThe31();
    var r := BitAnd(v, 0x7FFF_FFFF);
    MaskedBytes(v, r);
    r
  }

  /** 2^31 = 0x8000_0000, so `0x7FFFFFFF` is 2^31 - 1. */
  lemma TwoToThe31()
    ensures Pow(2, 31) == 0x8000_0000
  {
    assert Pow(2, 8) == 0x100 && Pow(2, 7) == 0x80;
    PowAdd(2, 8, 8);
    PowAdd(2, 16, 8);
    PowAdd(2, 24, 7);
  }

  /** A word reduced modulo 2^31 has the same big-endian bytes except that
      the first has its top bit cleared. */
  lemma MaskedBytes(v: u32, r: nat)
    requires r == v % 0x8000_0000
    ensures var bs := ToBigEndian(v, 4); ToBigEndian(r, 4) == [ClearTopBit(bs[0])] + bs[1..]
  {
    var bs := ToBigEndian(v, 4);
    var cs := [ClearTopBit(bs[0])] + bs[1..];
    var low := bs[1] as int * 0x1_0000 + bs[2] as int * 0x100 + bs[3];
    WordRoundTrip(v);
    FromBigEndian4(bs);
    assert v == bs[0] as int * 0x100_0000 + low;
    FromBigEndian4(cs);
    assert FromBigEndian(cs) == (bs[0] % 0x80) * 0x100_0000 + low;
    assert bs[0] == (bs[0] / 0x80) * 0x80 + bs[0] % 0x80;
    assert v == (bs[0] / 0x80) * 0x8000_0000 + FromBigEndian(cs);
    DivModUnique(v, 0x8000_0000, bs[0] / 0x80, FromBigEndian(cs));
    ToFromBigEndian(cs);
  }

  /** Masking the word that four bytes denote is clearing the top bit of the
      first byte. */
  lemma MaskedWord(bs: seq<byte>, v: u32)
    requires |bs| == 4 && ToBigEndian(v, 4) == bs
    ensures Mask31(v) == ClearTopBit(bs[0]) as int * 0x100_0000 + bs[1] as int * 0x1_0000
                         + bs[2] as int * 0x100 + bs[3]
  {
    var r := Mask31(v);
    var cs := [ClearTopBit(bs[0])] + bs[1..];
    assert ToBigEndian(r, 4) == cs;
    WordRoundTrip(r);
    assert FromBigEndian(cs) == r;
    FromBigEndian4(cs);
  }

  /** Dynamic truncation (section 5.3 of RFC 4226): the low nibble of the
      last digest byte selects a 4-byte window, read big-endian with its top
      bit cleared. The window always lies inside the digest, the u8 sum
      `offset + 4` cannot overflow and the read cannot fail. */
  function DynamicTruncation(digest: Digest): (r: Result<u32, IoError>)
    ensures r.Ok? && r.value < 0x8000_0000
    ensures var o := LowNibble(digest[19]);
      o + 4 <= |digest| &&
      r.value == ClearTopBit(digest[o]) as int * 0x100_0000 + digest[o + 1] as int * 0x1_0000
                 + digest[o + 2] as int * 0x100 + digest[o + 3]
  {
    var sliceStart: byte := LowNibble(digest[19]);
    var sliceEnd: byte := sliceStart + 4;
    var slice := digest[sliceStart..sliceEnd];
    match ReadU32(slice)
    case Err(e) => Err(e)
    case Ok(fullCodeBytes) =>
      MaskedWord(slice, fullCodeBytes);
      Ok(Mask31(fullCodeBytes))
  }

  // ---------------------------------------------------------------------------
  // Base-26 code

  /** The first `rounds` base-26 digits of n, least significant first, each
      written as the symbol at that position of a 26-symbol alphabet. */
  function EncodeBase26(alphabet: seq<char>, n: nat, rounds: nat): (code: string)
    requires |alphabet| == 26
    ensures |code| == rounds
    ensures forall i :: 0 <= i < |code| ==> code[i] in alphabet
  {
    if rounds == 0 then [] else [alphabet[n % 26]] + EncodeBase26(alphabet, n / 26, rounds - 1)
  }

  /** The number a string of alphabet symbols denotes as base-26 digits,
      least significant first. */
  function DecodeBase26(alphabet: seq<char>, code: string): (n: nat)
    requires |alphabet| == 26
    requires forall i :: 0 <= i < |code| ==> code[i] in alphabet
    ensures n < Pow(26, |code|)
  {
    if code == [] then 0
    else
      var rest := DecodeBase26(alphabet, code[1..]);
      assert 26 * rest <= 26 * (Pow(26, |code| - 1) - 1);
      IndexIn(alphabet, code[0]) + 26 * rest
  }

  /** The k-th symbol of an encoding is digit k of n: `(n / 26^k) % 26`. */
  lemma {:induction false} EncodeBase26At(alphabet: seq<char>, n: nat, rounds: nat, k: nat)
    requires |alphabet| == 26 && k < rounds
    ensures EncodeBase26(alphabet, n, rounds)[k] == alphabet[(n / Pow(26, k)) % 26]
  {
    if k > 0 {
      var p := Pow(26, k - 1);
      calc {
        EncodeBase26(alphabet, n, rounds)[k];
        EncodeBase26(alphabet, n / 26, rounds - 1)[k - 1];
        { EncodeBase26At(alphabet, n / 26, rounds - 1, k - 1); }
        alphabet[((n / 26) / p) % 26];
        { DivModSplit(n, 26, p); }
        alphabet[(n / (26 * p)) % 26];
        alphabet[(n / Pow(26, k)) % 26];
      }
    }
  }

  /** Reading an encoding back gives n modulo 26^rounds. */
  lemma {:induction false} DecodeEncode(alphabet: seq<char>, n: nat, rounds: nat)
    requires |alphabet| == 26 && Distinct(alphabet)
    ensures DecodeBase26(alphabet, EncodeBase26(alphabet, n, rounds)) == n % Pow(26, rounds)
  {
    if rounds > 0 {
      var code := EncodeBase26(alphabet, n, rounds);
      var p := Pow(26, rounds - 1);
      assert code[0] == alphabet[n % 26];
      assert code[1..] == EncodeBase26(alphabet, n / 26, rounds - 1);
      calc {
        DecodeBase26(alphabet, code);
        IndexIn(alphabet, code[0]) + 26 * DecodeBase26(alphabet, code[1..]);
        { IndexInDistinct(alphabet, n % 26); }
        n % 26 + 26 * DecodeBase26(alphabet, EncodeBase26(alphabet, n / 26, rounds - 1));
        { DecodeEncode(alphabet, n / 26, rounds - 1); }
        n % 26 + 26 * ((n / 26) % p);
        { DivModSplit(n, 26, p); }
        n % (26 * p);
        n % Pow(26, rounds);
      }
    }
  }

  /** Encoding the value of a string of symbols, in as many rounds as it has
      symbols, gives the string back. */
  lemma {:induction false} EncodeDecode(alphabet: seq<char>, code: string)
    requires |alphabet| == 26
    requires forall i :: 0 <= i < |code| ==> code[i] in alphabet
    ensures EncodeBase26(alphabet, DecodeBase26(alphabet, code), |code|) == code
  {
    if code != [] {
      var d := IndexIn(alphabet, code[0]);
      var rest := DecodeBase26(alphabet, code[1..]);
      var v := DecodeBase26(alphabet, code);
      assert v == rest * 26 + d;
      DivModUnique(v, 26, rest, d);
      calc {
        EncodeBase26(alphabet, v, |code|);
        [alphabet[v % 26]] + EncodeBase26(alphabet, v / 26, |code| - 1);
        [alphabet[d]] + EncodeBase26(alphabet, rest, |code[1..]|);
        { EncodeDecode(alphabet, code[1..]); }
        [code[0]] + code[1..];
        code;
      }
    }
  }

  /** Two numbers have the same code exactly when they agree modulo 26^5. */
  lemma SameCode(alphabet: seq<char>, a: nat, b: nat)
    requires |alphabet| == 26 && Distinct(alphabet)
    ensures EncodeBase26(alphabet, a, CODE_LENGTH) == EncodeBase26(alphabet, b, CODE_LENGTH)
        <==> a % Pow(26, CODE_LENGTH) == b % Pow(26, CODE_LENGTH)
  {
    DecodeEncode(alphabet, a, CODE_LENGTH);
    DecodeEncode(alphabet, b, CODE_LENGTH);
    if a % Pow(26, CODE_LENGTH) == b % Pow(26, CODE_LENGTH) {
      EncodeDecode(alphabet, EncodeBase26(alphabet, a, CODE_LENGTH));
      EncodeDecode(alphabet, EncodeBase26(alphabet, b, CODE_LENGTH));
    }
  }

  /** The encoder loop: five rounds, each emitting `CHARS[n % 26]` and then
      dividing n by 26. */
  method EncodeCode(fullCode: u32) returns (code: string)
    ensures code == EncodeBase26(CHARS, fullCode, CODE_LENGTH)
    ensures IsCode(code)
    ensures forall k :: 0 <= k < CODE_LENGTH ==> code[k] == CHARS[(fullCode / Pow(26, k)) % 26]
  {
    var n: u32 := fullCode;
    code := [];
    for i := 0 to CODE_LENGTH
      invariant code + EncodeBase26(CHARS, n, CODE_LENGTH - i) == EncodeBase26(CHARS, fullCode, CODE_LENGTH)
    {
      assert EncodeBase26(CHARS, n, CODE_LENGTH - i)
        == [CHARS[n % 26]] + EncodeBase26(CHARS, n / 26, CODE_LENGTH - i - 1);
      var charCode := CHARS[n % CHARS_LEN];
      n := n / CHARS_LEN;
      code := code + [charCode];
    }
    forall k | 0 <= k < CODE_LENGTH
      ensures code[k] == CHARS[(fullCode / Pow(26, k)) % 26]
    {
      EncodeBase26At(CHARS, fullCode, CODE_LENGTH, k);
    }
  }

  // ---------------------------------------------------------------------------
  // Entry points

  /** The code for a secret at a time, or the error that stops it. */
  function AuthCode(p: Primitives, secret: string, time: u32): (r: Result<string, AuthError>)
    ensures r.Err? <==> p.base64Decode(secret).None?
    ensures r.Err? ==> r.error == InvalidSecret
    ensures r.Ok? ==> IsCode(r.value)
  {
    match p.base64Decode(secret)
    case None => Err(InvalidSecret)
    case Some(key) =>
      var fullCode := DynamicTruncation(p.hmacSha1(key, CounterBytes(time))).value;
      Ok(EncodeBase26(CHARS, fullCode, CODE_LENGTH))
  }

  /** `generate_auth_code_for_time`: the code for a secret at an explicit
      time. */
  method GenerateAuthCodeForTime(p: Primitives, secret: string, time: u32)
    returns (r: Result<string, AuthError>)
    ensures r == AuthCode(p, secret, time)
    ensures r.Err? <==> p.base64Decode(secret).None?
    ensures r.Ok? ==> IsCode(r.value)
  {
    var hmac := GetHmac(p, secret, time);
    if hmac.Err? {
      return Err(hmac.error);
    }
    var result := Finalize(p, hmac.value);
    var truncated := DynamicTruncation(result);
    // The `?` after the read would pass UnexpectedEof on; the window is
    // always four bytes long, so the branch is not taken.
    if truncated.Err? {
      assert false;
    }
    var fullCode := truncated.value;
    var code := EncodeCode(fullCode);
    return Ok(code);
  }

  /** `generate_auth_code`: the code for a secret at the current time, which
      the caller reads from the clock. */
  method GenerateAuthCode(p: Primitives, secret: string, now: u32)
    returns (r: Result<string, AuthError>)
    ensures r == AuthCode(p, secret, now)
    ensures r.Ok? ==> IsCode(r.value)
  {
    r := GenerateAuthCodeForTime(p, secret, now);
  }

  /** Codes change only when the time step does: two times in the same
      30-second step give the same result for the same secret. */
  lemma SameStepSameCode(p: Primitives, secret: string, t1: u32, t2: u32)
    requires t1 / 30 == t2 / 30
    ensures AuthCode(p, secret, t1) == AuthCode(p, secret, t2)
  {
    CounterBytesSameStep(t1, t2);
  }

  /** 230750 = 0 + 9·26 + 3·26^2 + 13·26^3 + 0·26^4 is written "2C5H2". */
  lemma KnownCode()
    ensures EncodeBase26(CHARS, 230750, CODE_LENGTH) == "2C5H2"
  {
    assert EncodeBase26(CHARS, 0, 1) == [CHARS[0]] by {
      assert 0 / 26 == 0 && 0 % 26 == 0;
    }
    assert EncodeBase26(CHARS, 13, 2) == [CHARS[13], CHARS[0]] by {
      assert 13 / 26 == 0 && 13 % 26 == 13;
    }
    assert EncodeBase26(CHARS, 341, 3) == [CHARS[3], CHARS[13], CHARS[0]] by {
      assert 341 / 26 == 13 && 341 % 26 == 3;
    }
    assert EncodeBase26(CHARS, 8875, 4) == [CHARS[9], CHARS[3], CHARS[13], CHARS[0]] by {
      assert 8875 / 26 == 341 && 8875 % 26 == 9;
    }
    assert EncodeBase26(CHARS, 230750, 5) == [CHARS[0], CHARS[9], CHARS[3], CHARS[13], CHARS[0]] by {
      assert 230750 / 26 == 8875 && 230750 % 26 == 0;
    }
  }

  /** The test vector: with the key that the base64 text
      "000000000000000000000000000=" stands for, the code at time 1634603498
      is "2C5H2" exactly when the truncated HMAC-SHA1 of the counter
      00 00 00 00 03 3F 66 FF is 230750 modulo 26^5 (230750 being the
      base-26 value of "2C5H2"). The digest itself is SHA-1's business. */
  lemma KnownVector(p: Primitives, key: seq<byte>)
    requires p.base64Decode("000000000000000000000000000=") == Some(key)
    ensures var digest := p.hmacSha1(key, [0, 0, 0, 0, 0x03, 0x3F, 0x66, 0xFF]);
      (AuthCode(p, "000000000000000000000000000=", 1634603498) == Ok("2C5H2")) <==>
      (DynamicTruncation(digest).value % 11881376 == 230750)
  {
    KnownVectorCounter();
    var digest := p.hmacSha1(key, [0, 0, 0, 0, 0x03, 0x3F, 0x66, 0xFF]);
    var fullCode := DynamicTruncation(digest).value;
    assert AuthCode(p, "000000000000000000000000000=", 1634603498) == Ok(EncodeBase26(CHARS, fullCode, CODE_LENGTH));
    var m := Pow(26, CODE_LENGTH);
    assert m == 11881376 by {
      assert Pow(26, 2) == 676;
      assert Pow(26, 4) == 456976;
    }
    assert 230750 % m == 230750;
    KnownCode();
    AlphabetDistinct();
    SameCode(CHARS, fullCode, 230750);
  }
}
