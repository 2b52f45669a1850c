/** Steam Guard arithmetic (steam-inventory-manager/utils.py): the five-character
    login code, the mobile device id, and the trade-confirmation code. HMAC-SHA1,
    SHA-1 and Base64 are not modelled; they enter as the `Primitives` record,
    known only through the lengths of what they return. */
module SteamGuard {
  import opened Wrappers
  import opened Errors
  import opened Arith
  import opened Bytes
  import opened Text
  import opened Decimal
  import Bits

  /** A raw SHA-1 / HMAC-SHA1 digest. */
  type Digest = s: seq<byte> | |s| == 20 witness seq(20, _ => 0)

  predicate IsLowerHex(c: char) {
    '0' <= c <= '9' || 'a' <= c <= 'f'
  }

  /** `sha1(...).hexdigest()`: forty lower-case hex characters. */
  type HexDigest = s: string | |s| == 40 && forall i :: 0 <= i < |s| ==> IsLowerHex(s[i])
    witness "0000000000000000000000000000000000000000"

  /** Base64 text of a 20-byte digest: 28 characters with padding. */
  type DigestBase64 = s: string | |s| == 28 witness "AAAAAAAAAAAAAAAAAAAAAAAAAAA="

  /** The foreign functions `utils.py` calls. `b64Decode` yields `None` where
      `base64.b64decode` raises `binascii.Error`. */
  datatype Primitives = Primitives(
    hmacSha1: (seq<byte>, seq<byte>) -> Digest,
    sha1Hex: seq<byte> -> HexDigest,
    b64Decode: string -> Option<seq<byte>>,
    b64EncodeDigest: Digest -> DigestBase64)

  // ---------------------------------------------------------------------------
  // Login code (generate_one_time_code)
  // ---------------------------------------------------------------------------

  const Alphabet: string := "23456789BCDFGHJKMNPQRTVWXY"
  const CodeLength: nat := 5
  const TimeStepSeconds: nat := 30

  lemma AlphabetDistinct()
    ensures |Alphabet| == 26
    ensures forall i, j :: 0 <= i < j < |Alphabet| ==> Alphabet[i] != Alphabet[j]
  {
  }

  /** `timestamp // 30`. Python's floor division and Dafny's Euclidean division
      agree for a positive divisor. */
  function TimeStep(t: int): (r: int)
    ensures TimeStepSeconds * r <= t < TimeStepSeconds * r + TimeStepSeconds
  {
    t / TimeStepSeconds
  }

  /** `struct.pack(">Q", timestamp // 30)`. */
  function TimeBuffer(t: int): (r: Result<seq<byte>, Error>)
    ensures r.Ok? <==> 0 <= TimeStep(t) < U64Bound
    ensures r.Ok? ==> |r.value| == 8 && FromBigEndian(r.value) == TimeStep(t)
  {
    PackU64(TimeStep(t))
  }

  /** `ord(digest[19:20]) & 0xF`: the low nibble of the last digest byte. */
  function TruncationOffset(d: Digest): (r: nat)
    ensures r == d[19] % 16
    ensures r + 4 <= |d|
  {
    Bits.LowNibble(d[19])
  }

  /** The big-endian value of a sequence is its first byte scaled past the rest. */
  lemma {:induction false} FromBigEndianFirst(a: byte, rest: seq<byte>)
    ensures FromBigEndian([a] + rest) == a * Pow(256, |rest|) + FromBigEndian(rest)
    decreases |rest|
  {
    if |rest| > 0 {
      var s := [a] + rest;
      var k := |rest| - 1;
      var init := rest[..k];
      assert s[..|s| - 1] == [a] + init;
      FromBigEndianFirst(a, init);
      var x: int, p: int, v: int, last: int := a, Pow(256, k), FromBigEndian(init), rest[k];
      assert s[|s| - 1] == last && rest[..k] == init;
      assert FromBigEndian(s) == (x * p + v) * 256 + last;
      assert FromBigEndian(rest) == v * 256 + last;
      assert Pow(256, |rest|) == 256 * p;
      ShiftByte(x, p, v, last);
    }
  }

  /** Clearing the top bit of the first of four big-endian bytes takes the
      word modulo 2^31 (the effect of `& 0x7FFFFFFF` on an unsigned 32-bit value). */
  lemma {:induction false} ClearTopBitIsMod(w: seq<byte>)
    requires |w| == 4
    ensures FromBigEndian([w[0] % 128] + w[1..]) == FromBigEndian(w) % 0x8000_0000
  {
    var rest := FromBigEndian(w[1..]);
    assert Pow(256, 3) == 0x100_0000;
    assert rest < 0x100_0000;
    FromBigEndianFirst(w[0], w[1..]);
    FromBigEndianFirst(w[0] % 128, w[1..]);
    assert w == [w[0]] + w[1..];
    var b: int := w[0];
    var hi: int, lo: int := b / 128, b % 128 * 0x100_0000 + rest;
    assert FromBigEndian(w) == b * 0x100_0000 + rest;
    assert b == hi * 128 + b % 128;
    assert FromBigEndian(w) == hi * 0x8000_0000 + lo;
    assert lo < 0x8000_0000;
    DivModUnique(FromBigEndian(w), 0x8000_0000, hi, lo);
  }

  /** `struct.unpack(">I", digest[begin:begin + 4])[0] & 0x7FFFFFFF`: the
      four-byte word at the offset with bit 31 cleared. */
  function TruncatedValue(d: Digest): (r: nat)
    ensures r < 0x8000_0000
    ensures r == FromBigEndian(d[TruncationOffset(d)..TruncationOffset(d) + 4]) % 0x8000_0000
  {
    var off := TruncationOffset(d);
    var w := d[off..off + 4];
    ClearTopBitIsMod(w);
    FromBigEndian([Bits.ClearTopBit(w[0])] + w[1..])
  }

  /** The base-26 digits of `n`, least significant first, spelled in `Alphabet`
      (the `divmod` loop of generate_one_time_code). */
  function EncodeDigits(n: nat, k: nat): (r: string)
    ensures |r| == k
    ensures forall i :: 0 <= i < k ==> r[i] in Alphabet
  {
    if k == 0 then "" else [Alphabet[n % 26]] + EncodeDigits(n / 26, k - 1)
  }

  /** Position of a code character in `Alphabet`. */
  function DigitOf(c: char): (r: nat)
    requires c in Alphabet
    ensures r < |Alphabet| && Alphabet[r] == c
  {
    PositionIn(Alphabet, c)
  }

  function PositionIn(s: string, c: char): (r: nat)
    requires c in s
    ensures r < |s| && s[r] == c
  {
    if s[0] == c then 0 else PositionIn(s[1..], c) + 1
  }

  /** Reads a code back as a number, least significant character first. */
  function DecodeDigits(s: string): nat
    requires forall i :: 0 <= i < |s| ==> s[i] in Alphabet
  {
    if |s| == 0 then 0 else DigitOf(s[0]) + 26 * DecodeDigits(s[1..])
  }

  /** The code spells `n` modulo 26^k: decoding recovers exactly the low k
      base-26 digits. */
  lemma {:induction false} DecodeEncodeDigits(n: nat, k: nat)
    ensures DecodeDigits(EncodeDigits(n, k)) == n % Pow(26, k)
  {
    if k > 0 {
      var s := EncodeDigits(n, k);
      AlphabetDistinct();
      assert DigitOf(s[0]) == n % 26;
      assert s[1..] == EncodeDigits(n / 26, k - 1);
      DecodeEncodeDigits(n / 26, k - 1);
      ModOfProduct(n, 26, Pow(26, k - 1));
    }
  }

  /** generate_one_time_code with the clock reading `now` as a parameter. Packing
      is evaluated before the secret is decoded, so a time step outside 64 bits
      raises `struct.error` first. */
  function OneTimeCode(p: Primitives, sharedSecret: string, now: int): (r: Result<string, Error>)
    ensures r.Ok? <==> 0 <= TimeStep(now) < U64Bound && p.b64Decode(sharedSecret).Some?
    ensures !(0 <= TimeStep(now) < U64Bound) ==> r.Err? && r.error.StructError?
    ensures r.Ok? ==> |r.value| == CodeLength
    ensures r.Ok? ==> forall i :: 0 <= i < |r.value| ==> r.value[i] in Alphabet
  {
    var buffer :- TimeBuffer(now);
    match p.b64Decode(sharedSecret)
    case None => Err(ValueError(PaddingMessage))
    case Some(key) =>
      var fullCode := TruncatedValue(p.hmacSha1(key, buffer));
      Ok(EncodeDigits(fullCode, CodeLength))
  }

  /** A successful code, read back in base 26, is the truncated HMAC of the
      packed time step modulo 26^5. */
  lemma OneTimeCodeDecodes(p: Primitives, sharedSecret: string, now: int)
    requires OneTimeCode(p, sharedSecret, now).Ok?
    ensures var code := OneTimeCode(p, sharedSecret, now).value;
      var digest := p.hmacSha1(p.b64Decode(sharedSecret).value, TimeBuffer(now).value);
      DecodeDigits(code) == TruncatedValue(digest) % Pow(26, CodeLength)
  {
    var digest := p.hmacSha1(p.b64Decode(sharedSecret).value, TimeBuffer(now).value);
    DecodeEncodeDigits(TruncatedValue(digest), CodeLength);
  }

  /** Any two timestamps inside one 30-second window give the same code. */
  lemma SameWindowSameCode(p: Primitives, sharedSecret: string, w: int, t1: int, t2: int)
    requires TimeStepSeconds * w <= t1 < TimeStepSeconds * w + TimeStepSeconds
    requires TimeStepSeconds * w <= t2 < TimeStepSeconds * w + TimeStepSeconds
    ensures TimeStep(t1) == w && TimeStep(t2) == w
    ensures OneTimeCode(p, sharedSecret, t1) == OneTimeCode(p, sharedSecret, t2)
  {
    DivModUnique(t1, 30, w, t1 - 30 * w);
    DivModUnique(t2, 30, w, t2 - 30 * w);
  }

  /** Conversely, equal time buffers mean the same window: timestamps in
      different windows sign different HMAC messages. */
  lemma TimeBufferInjective(t1: int, t2: int)
    requires TimeBuffer(t1).Ok? && TimeBuffer(t2).Ok?
    requires TimeBuffer(t1) == TimeBuffer(t2)
    ensures TimeStep(t1) == TimeStep(t2)
  {
  }

  // ---------------------------------------------------------------------------
  // Device id (generate_device_id)
  // ---------------------------------------------------------------------------

  const DevicePrefix: string := "android:"

  /** `"android:" + "-".join(groups)` for the 8-4-4-4-12 split of `hex[:32]`. */
  function DeviceIdFromHex(hex: HexDigest): (r: string)
    ensures |r| == 44
    ensures r[..8] == DevicePrefix
    ensures r[16] == '-' && r[21] == '-' && r[26] == '-' && r[31] == '-'
    ensures Without(r[8..], '-') == hex[..32]
  {
    var body := hex[..8] + "-" + hex[8..12] + "-" + hex[12..16] + "-" + hex[16..20] + "-" + hex[20..32];
    var r := DevicePrefix + body;
    assert r[8..] == body;
    WithoutHexGroups(hex);
    r
  }

  /** Dropping dashes from `a + "-" + b`, where `b` has none, drops them from `a`. */
  lemma {:induction false} WithoutDashThen(a: string, b: string)
    requires '-' !in b
    ensures Without(a + "-" + b, '-') == Without(a, '-') + b
  {
    var dash := Without("-", '-');
    assert dash == "" by {
      assert "-"[1..] == "";
      assert Without("", '-') == "";
    }
    WithoutConcat(a, "-", '-');
    assert Without(a + "-", '-') == Without(a, '-');
    WithoutConcat(a + "-", b, '-');
    WithoutAbsent(b, '-');
  }

  lemma {:induction false} WithoutHexGroups(hex: HexDigest)
    ensures Without(hex[..8] + "-" + hex[8..12] + "-" + hex[12..16] + "-" + hex[16..20] + "-" + hex[20..32], '-')
         == hex[..32]
  {
    assert '-' !in hex;
    var x1 := hex[..8];
    var x2 := x1 + "-" + hex[8..12];
    var x3 := x2 + "-" + hex[12..16];
    var x4 := x3 + "-" + hex[16..20];
    var x5 := x4 + "-" + hex[20..32];
    WithoutAbsent(x1, '-');
    WithoutDashThen(x1, hex[8..12]);
    WithoutDashThen(x2, hex[12..16]);
    WithoutDashThen(x3, hex[16..20]);
    WithoutDashThen(x4, hex[20..32]);
    SliceAppend(hex, 8, 12);
    SliceAppend(hex, 12, 16);
    SliceAppend(hex, 16, 20);
    SliceAppend(hex, 20, 32);
  }

  lemma SliceAppend(s: string, i: nat, j: nat)
    requires i <= j <= |s|
    ensures s[..i] + s[i..j] == s[..j]
  {
  }

  lemma DecimalIsAscii(i: int)
    ensures IsAscii(IntToString(i))
  {
  }

  /** generate_device_id: SHA-1 of the ASCII decimal form of the id, reformatted. */
  function DeviceId(p: Primitives, steamId64: int): (r: string)
    ensures |r| == 44 && r[..8] == DevicePrefix
    ensures Without(r[8..], '-') == p.sha1Hex(AsciiEncode(IntToString(steamId64)).value)[..32]
  {
    DecimalIsAscii(steamId64);
    DeviceIdFromHex(p.sha1Hex(AsciiEncode(IntToString(steamId64)).value))
  }

  // ---------------------------------------------------------------------------
  // Confirmation code (generate_confirmation_code)
  // ---------------------------------------------------------------------------

  /** `struct.pack(">Q", timestamp) + tag.encode("ascii")`. */
  function ConfirmationMessage(t: int, tag: string): (r: Result<seq<byte>, Error>)
    ensures r.Ok? <==> 0 <= t < U64Bound && IsAscii(tag)
    ensures r.Ok? ==> |r.value| == 8 + |tag|
    ensures r.Ok? ==> FromBigEndian(r.value[..8]) == t
  {
    var stamp :- PackU64(t);
    var text :- AsciiEncode(tag);
    assert (stamp + text)[..8] == stamp;
    Ok(stamp + text)
  }

  /** The message is read back unambiguously: the first eight bytes give the
      timestamp, the rest the tag, so "conf" and "allow" codes for one second
      sign different messages. */
  lemma ConfirmationMessageDecodes(t: int, tag: string)
    requires ConfirmationMessage(t, tag).Ok?
    ensures var m := ConfirmationMessage(t, tag).value;
      && FromBigEndian(m[..8]) == t
      && (forall i :: 8 <= i < |m| ==> m[i] < 128)
      && AsciiDecode(m[8..]) == tag
  {
    var m := ConfirmationMessage(t, tag).value;
    AsciiRoundTrip(tag);
    assert m[8..] == AsciiEncode(tag).value;
  }

  lemma ConfirmationMessageInjective(t1: int, tag1: string, t2: int, tag2: string)
    requires ConfirmationMessage(t1, tag1).Ok? && ConfirmationMessage(t2, tag2).Ok?
    requires ConfirmationMessage(t1, tag1) == ConfirmationMessage(t2, tag2)
    ensures t1 == t2 && tag1 == tag2
  {
    ConfirmationMessageDecodes(t1, tag1);
    ConfirmationMessageDecodes(t2, tag2);
  }

  /** generate_confirmation_code with the timestamp as a parameter: base64 of
      the HMAC-SHA1 of the message under the decoded identity secret. The
      message is built first; an absent secret then raises `TypeError` in
      `b64decode(None)`. */
  function ConfirmationCode(p: Primitives, identitySecret: Option<string>, tag: string, t: int)
    : (r: Result<string, Error>)
    ensures r.Ok? <==>
      ConfirmationMessage(t, tag).Ok? && identitySecret.Some? && p.b64Decode(identitySecret.value).Some?
    ensures ConfirmationMessage(t, tag).Ok? && identitySecret.None? ==> r == Err(TypeError(BytesOfNoneMessage))
    ensures r.Ok? ==> |r.value| == 28
    ensures ConfirmationMessage(t, tag).Ok? && identitySecret.Some? && p.b64Decode(identitySecret.value).None? ==>
      r == Err(ValueError(PaddingMessage))
    ensures r.Ok? ==>
      r.value == p.b64EncodeDigest(p.hmacSha1(p.b64Decode(identitySecret.value).value, ConfirmationMessage(t, tag).value))
  {
    var message :- ConfirmationMessage(t, tag);
    match identitySecret
    case None => Err(TypeError(BytesOfNoneMessage))
    case Some(secret) =>
      match p.b64Decode(secret)
      case None => Err(ValueError(PaddingMessage))
      case Some(key) => Ok(p.b64EncodeDigest(p.hmacSha1(key, message)))
  }

  /** generate_confirmation_code as declared: two parameters, reading the clock
      itself. A call with further positional arguments raises `TypeError` before
      the body runs. */
  function ConfirmationCodeAsWritten(p: Primitives, identitySecret: Option<string>, tag: string,
                                     extraArgs: seq<int>, clock: int): (r: Result<string, Error>)
    ensures |extraArgs| > 0 ==> r.Err? && r.error.TypeError?
    ensures |extraArgs| == 0 ==> r == ConfirmationCode(p, identitySecret, tag, clock)
  {
    if |extraArgs| > 0 then
      Err(TypeError(TooManyArgumentsMessage))
    else
      ConfirmationCode(p, identitySecret, tag, clock)
  }

  /** The account code calls it with an explicit timestamp as a third argument,
      so every such call raises, whatever the secret, tag or time. */
  lemma ConfirmationCallSitesRaise(p: Primitives, identitySecret: Option<string>, tag: string,
                                   timestamp: int, clock: int)
    ensures ConfirmationCodeAsWritten(p, identitySecret, tag, [timestamp], clock).Err?
    ensures ConfirmationCodeAsWritten(p, identitySecret, tag, [timestamp], clock).error.TypeError?
  {
  }
}
