/**
 * Request signing: the Unix timestamp derived from SNTP time, the hash
 * pre-image `APP_ID ‖ APP_SECRET ‖ timestamp` written into the 129-byte
 * `secrets` buffer, and the in-place lowercase hex rendering of the
 * SHA-512 digest (FIPS 180-4 section 6.4) that becomes the `sign` header.
 * SHA-512 itself is a parameter: any function returning 64 bytes.
 */
module Signer {
  import opened Bytes
  import opened HexCodec

  /** Seconds from the NTP prime epoch (1900, section 6 of RFC 5905) to 1970. */
  const NTP_UNIX_OFFSET: nat := 2208988800
  const UINT64_MODULUS: nat := 0x1_0000_0000_0000_0000
  /** `secrets[129]` */
  const SECRETS_LEN: nat := 129
  /** `sha_out[64]` */
  const DIGEST_LEN: nat := 64
  /** `timeStamp_buf[32]` */
  const TIMESTAMP_BUF_LEN: nat := 32

  /** The application credentials from the build-time secrets header. */
  datatype Credentials = Credentials(appId: seq<byte>, appSecret: seq<byte>)

  /** What a SHA-512 implementation promises about its output's shape. */
  ghost predicate IsDigestFunction(sha512: seq<byte> -> seq<byte>) {
    forall m :: |sha512(m)| == DIGEST_LEN
  }

  /**
   * `changedatetime_to_seconds() - 2208988800L`: an `unsigned long long`
   * subtraction, so a time before 1970 wraps modulo 2^64.
   */
  function UnixSeconds(ntp: uint64): uint64 {
    ((ntp as int - NTP_UNIX_OFFSET) % UINT64_MODULUS) as uint64
  }

  /** The inverse conversion, Unix seconds back to NTP-era seconds. */
  function NtpSeconds(unix: uint64): uint64 {
    ((unix as int + NTP_UNIX_OFFSET) % UINT64_MODULUS) as uint64
  }

  /** For any time from 1970 on, the conversion is the plain difference. */
  lemma UnixSecondsAfter1970(ntp: uint64)
    requires ntp as int >= NTP_UNIX_OFFSET
    ensures UnixSeconds(ntp) as int == ntp as int - NTP_UNIX_OFFSET
  {
  }

  /** The conversion loses nothing, even across the wrap. */
  lemma UnixSecondsRoundTrip(ntp: uint64)
    ensures NtpSeconds(UnixSeconds(ntp)) == ntp
  {
  }

  /** `timeStamp_buf` after `sprintf("%llu", timeStamp)`. */
  function TimestampText(ntp: uint64): seq<byte> {
    Decimal(UnixSeconds(ntp) as nat)
  }

  /** The timestamp text always fits `timeStamp_buf` with its terminator. */
  lemma TimestampFits(ntp: uint64)
    ensures |TimestampText(ntp)| < TIMESTAMP_BUF_LEN
    ensures NoNul(TimestampText(ntp))
  {
    Uint64DecimalLength(UnixSeconds(ntp));
  }

  /** The hash pre-image: the three strings with no separator. */
  function Preimage(c: Credentials, timeStamp: seq<byte>): seq<byte> {
    c.appId + c.appSecret + timeStamp
  }

  /** The pre-image fits `secrets` together with its NUL terminator. */
  predicate PreimageFits(c: Credentials, timeStamp: seq<byte>) {
    |c.appId| + |c.appSecret| + |timeStamp| < SECRETS_LEN
  }

  /** With the credentials fixed, different timestamps give different pre-images. */
  lemma PreimageDeterminesTimestamp(c: Credentials, ntp1: uint64, ntp2: uint64)
    requires Preimage(c, TimestampText(ntp1)) == Preimage(c, TimestampText(ntp2))
    ensures UnixSeconds(ntp1) == UnixSeconds(ntp2)
    ensures ntp1 == ntp2
  {
    var p := |c.appId| + |c.appSecret|;
    var t1, t2 := TimestampText(ntp1), TimestampText(ntp2);
    assert t1 == Preimage(c, t1)[p..];
    assert t2 == Preimage(c, t2)[p..];
    DecimalInjective(UnixSeconds(ntp1) as nat, UnixSeconds(ntp2) as nat);
    UnixSecondsRoundTrip(ntp1);
    UnixSecondsRoundTrip(ntp2);
  }

  /**
   * For credentials of the same lengths and the same timestamp, the
   * pre-image determines both the identifier and the secret.
   */
  lemma PreimageDeterminesCredentials(c1: Credentials, c2: Credentials, timeStamp: seq<byte>)
    requires |c1.appId| == |c2.appId| && |c1.appSecret| == |c2.appSecret|
    requires Preimage(c1, timeStamp) == Preimage(c2, timeStamp)
    ensures c1 == c2
  {
    var n, m := |c1.appId|, |c1.appSecret|;
    assert c1.appId == Preimage(c1, timeStamp)[..n];
    assert c2.appId == Preimage(c2, timeStamp)[..n];
    assert c1.appSecret == Preimage(c1, timeStamp)[n..n + m];
    assert c2.appSecret == Preimage(c2, timeStamp)[n..n + m];
  }

  /** The `sign` header value: the lowercase hex of the pre-image's digest. */
  function Signature(c: Credentials, timeStamp: seq<byte>, sha512: seq<byte> -> seq<byte>): seq<byte> {
    Hex(sha512(Preimage(c, timeStamp)))
  }

  /**
   * The signature is 128 lowercase hex characters; characters 2i and 2i+1
   * are the nibbles of digest byte i; decoding it gives the digest back.
   */
  lemma SignatureShape(c: Credentials, timeStamp: seq<byte>, sha512: seq<byte> -> seq<byte>)
    requires IsDigestFunction(sha512)
    ensures |Signature(c, timeStamp, sha512)| == 2 * DIGEST_LEN
    ensures AllLowerHex(Signature(c, timeStamp, sha512))
    ensures NoNul(Signature(c, timeStamp, sha512))
    ensures Unhex(Signature(c, timeStamp, sha512)) == sha512(Preimage(c, timeStamp))
    ensures forall i :: 0 <= i < DIGEST_LEN ==>
      var d := sha512(Preimage(c, timeStamp));
      Signature(c, timeStamp, sha512)[2 * i] == HexDigit(d[i] as nat / 16) &&
      Signature(c, timeStamp, sha512)[2 * i + 1] == HexDigit(d[i] as nat % 16)
  {
    var d := sha512(Preimage(c, timeStamp));
    HexIsLowercase(d);
    UnhexHex(d);
    forall i | 0 <= i < DIGEST_LEN
      ensures Hex(d)[2 * i] == HexDigit(d[i] as nat / 16)
      ensures Hex(d)[2 * i + 1] == HexDigit(d[i] as nat % 16)
    {
      HexAt(d, i);
    }
  }

  /**
   * `sprintf(secrets, "%s%s%s", APP_ID, APP_SECRET, timeStamp_buf)`: writes
   * the pre-image and its terminator, returns the length written, and
   * leaves the rest of the buffer alone.
   */
  method FormatPreimage(secrets: array<byte>, c: Credentials, timeStamp: seq<byte>) returns (len: nat)
    requires secrets.Length == SECRETS_LEN
    requires NoNul(c.appId) && NoNul(c.appSecret) && NoNul(timeStamp)
    requires PreimageFits(c, timeStamp)
    modifies secrets
    ensures len == |c.appId| + |c.appSecret| + |timeStamp|
    ensures secrets[..len] == Preimage(c, timeStamp)
    ensures secrets[len] == 0
    ensures secrets[len + 1..] == old(secrets[len + 1..])
  {
    var pre := Preimage(c, timeStamp);
    len := |pre|;
    forall k | 0 <= k < len {
      secrets[k] := pre[k];
    }
    secrets[len] := 0;
  }

  /**
   * The loop `sprintf(secrets + 2*i, "%02x", sha_out[i])` for i in 0..63:
   * each step writes two hex characters and a NUL after them, so the buffer
   * ends as the 128-character rendering followed by its terminator.
   */
  method HexEncodeInPlace(secrets: array<byte>, shaOut: seq<byte>)
    requires secrets.Length == SECRETS_LEN && |shaOut| == DIGEST_LEN
    modifies secrets
    ensures secrets[..] == Hex(shaOut) + [0]
  {
    for i := 0 to DIGEST_LEN
      invariant secrets[..2 * i] == Hex(shaOut[..i])
      invariant i > 0 ==> secrets[2 * i] == 0
    {
      secrets[2 * i] := HexDigit(shaOut[i] as nat / 16);
      secrets[2 * i + 1] := HexDigit(shaOut[i] as nat % 16);
      secrets[2 * i + 2] := 0;
      assert shaOut[..i + 1][..i] == shaOut[..i];
    }
    assert shaOut[..DIGEST_LEN] == shaOut;
    assert secrets[..] == secrets[..2 * DIGEST_LEN] + [secrets[2 * DIGEST_LEN]];
  }

  /**
   * The signing step of the send branch: converts the SNTP time, renders
   * it, writes the pre-image into a fresh `secrets` buffer, hashes the
   * `len` bytes written and hex-encodes the digest over the same buffer.
   * Returns the `timeStamp` and `sign` header values.
   */
  method SignRequest(c: Credentials, ntp: uint64, sha512: seq<byte> -> seq<byte>)
    returns (timeStamp: seq<byte>, sign: seq<byte>)
    requires NoNul(c.appId) && NoNul(c.appSecret)
    requires IsDigestFunction(sha512)
    requires PreimageFits(c, TimestampText(ntp))
    ensures timeStamp == Decimal(UnixSeconds(ntp) as nat)
    ensures sign == Hex(sha512(c.appId + c.appSecret + timeStamp))
    ensures |sign| == 2 * DIGEST_LEN
  {
    var unix := UnixSeconds(ntp);
    timeStamp := Decimal(unix as nat);
    TimestampFits(ntp);
    var secrets := new byte[SECRETS_LEN](_ => 0);
    var len := FormatPreimage(secrets, c, timeStamp);
    var shaOut := sha512(secrets[..len]);
    HexEncodeInPlace(secrets, shaOut);
    sign := secrets[..2 * DIGEST_LEN];
    assert secrets[..] == Hex(shaOut) + [0];
    assert sign == secrets[..][..2 * DIGEST_LEN];
  }
}
