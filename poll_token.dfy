/**
 * Vote tokens: a candidate number encrypted under a key made of the poll's
 * key half and the voter's session key half, with a nonce derived from the
 * configured nonce string (src/poll_token.rs).
 */
module PollTokens {
  import opened Wrappers
  import opened Hex
  import opened Decimal
  import Aead

  /** AES_KEY_LEN: bytes in an AES-256 key. */
  const AesKeyLen: nat := 32
  /** NONCE_LEN: bytes in an AES-GCM-SIV nonce. */
  const NonceLen: nat := 12

  type UserId = int
  type MessageId = int

  /** One stored vote: the hex ciphertext, its owner and the message it came from. */
  datatype PollToken = PollToken(token: string, userId: UserId, msgId: MessageId)

  /** The cipher key: the decoded poll key half followed by the decoded session key half. */
  function CipherKey(pubKey: string, privKey: string): seq<byte>
    requires Hex.Decode(pubKey).Some? && Hex.Decode(privKey).Some?
  {
    Hex.Decode(pubKey).value + Hex.Decode(privKey).value
  }

  /** The nonce: the configured string's bytes, right-padded with zero bytes to NONCE_LEN. */
  function Nonce(nonceStr: seq<byte>): (nonce: seq<byte>)
    requires |nonceStr| <= NonceLen
    ensures |nonce| == NonceLen
    ensures nonce[..|nonceStr|] == nonceStr
    ensures forall i :: |nonceStr| <= i < NonceLen ==> nonce[i] == 0
  {
    nonceStr + seq(NonceLen - |nonceStr|, _ => 0)
  }

  predicate IsAscii(s: string) {
    forall i :: 0 <= i < |s| ==> s[i] as int < 128
  }

  /** `str::as_bytes` on ASCII text. */
  function AsciiBytes(s: string): (b: seq<byte>)
    requires IsAscii(s)
    ensures |b| == |s|
  {
    seq(|s|, i requires 0 <= i < |s| => s[i] as int)
  }

  /**
   * `String::from_utf8`, restricted to the ASCII texts that can parse as an
   * i64; any byte from 0x80 up makes it fail.
   */
  function AsciiText(b: seq<byte>): (s: Option<string>)
    ensures s.Some? ==> |s.value| == |b| && IsAscii(s.value)
  {
    if forall i :: 0 <= i < |b| ==> b[i] < 128
    then Some(seq(|b|, i requires 0 <= i < |b| => b[i] as char))
    else None
  }

  /**
   * `PollToken::new`: encrypt the decimal text of `num`. The source panics
   * unless both key halves are hex, together AES_KEY_LEN bytes long, and
   * the nonce string is at most NONCE_LEN bytes.
   */
  function New(nonceStr: seq<byte>, pubKey: string, privKey: string, num: int,
               userId: UserId, msgId: MessageId): (t: PollToken)
    requires Hex.Decode(pubKey).Some? && Hex.Decode(privKey).Some?
    requires |CipherKey(pubKey, privKey)| == AesKeyLen
    requires |nonceStr| <= NonceLen
    requires InI64(num)
    ensures t.userId == userId && t.msgId == msgId
    ensures Hex.Decode(t.token).Some?
    ensures forall i :: 0 <= i < |t.token| ==> IsLowerHexDigit(t.token[i])
  {
    var text := ToDecimal(num);
    assert IsAscii(text);
    var ciphertext := Aead.Seal(CipherKey(pubKey, privKey), Nonce(nonceStr), AsciiBytes(text));
    DecodeEncode(ciphertext);
    PollToken(Hex.Encode(ciphertext), userId, msgId)
  }

  /**
   * What `decrypt` needs in order not to panic: once the session key half
   * decodes, the poll key half must decode, the two must make AES_KEY_LEN
   * bytes, the nonce string must fit and the stored token must be hex.
   */
  predicate DecryptDefined(t: PollToken, nonceStr: seq<byte>, pubKey: string, privKey: string) {
    Hex.Decode(privKey).Some? ==>
      && Hex.Decode(pubKey).Some?
      && |CipherKey(pubKey, privKey)| == AesKeyLen
      && |nonceStr| <= NonceLen
      && Hex.Decode(t.token).Some?
  }

  /**
   * `PollToken::decrypt`: `Err` when the session key half is not hex, when
   * authentication fails, when the plaintext is not text, or when the text
   * is not an i64.
   */
  function Decrypt(t: PollToken, nonceStr: seq<byte>, pubKey: string, privKey: string): (r: Result<int>)
    requires DecryptDefined(t, nonceStr, pubKey, privKey)
    ensures Hex.Decode(privKey).None? ==> r.Err?
    ensures r.Ok? ==> InI64(r.value)
    ensures Hex.Decode(privKey).Some? ==>
              Aead.Open(CipherKey(pubKey, privKey), Nonce(nonceStr), Hex.Decode(t.token).value).None? ==> r.Err?
    ensures r.Ok? ==>
              && Hex.Decode(privKey).Some?
              && var plaintext := Aead.Open(CipherKey(pubKey, privKey), Nonce(nonceStr), Hex.Decode(t.token).value);
                 && plaintext.Some?
                 && AsciiText(plaintext.value).Some?
                 && ParseI64(AsciiText(plaintext.value).value) == Some(r.value)
  {
    match Hex.Decode(privKey)
    case None => Err
    case Some(_) =>
      match Aead.Open(CipherKey(pubKey, privKey), Nonce(nonceStr), Hex.Decode(t.token).value)
      case None => Err
      case Some(plaintext) =>
        match AsciiText(plaintext)
        case None => Err
        case Some(text) =>
          match ParseI64(text)
          case None => Err
          case Some(v) => Ok(v)
  }

  /** Key halves written by `hex::encode` are concatenated unchanged. */
  lemma CipherKeyOfEncoded(pubBytes: seq<byte>, privBytes: seq<byte>)
    ensures Hex.Decode(Hex.Encode(pubBytes)).Some? && Hex.Decode(Hex.Encode(privBytes)).Some?
    ensures CipherKey(Hex.Encode(pubBytes), Hex.Encode(privBytes)) == pubBytes + privBytes
  {
    DecodeEncode(pubBytes);
    DecodeEncode(privBytes);
  }

  /**
   * Decrypting a token made by `New` with some session key half `other`:
   * the candidate comes back when `other` decodes to the same bytes as the
   * key half it was made with, and every other key half is rejected.
   */
  lemma DecryptNew(nonceStr: seq<byte>, pubKey: string, privKey: string, num: int,
                   userId: UserId, msgId: MessageId, other: string)
    requires Hex.Decode(pubKey).Some? && Hex.Decode(privKey).Some?
    requires |CipherKey(pubKey, privKey)| == AesKeyLen
    requires |nonceStr| <= NonceLen
    requires InI64(num)
    requires Hex.Decode(other).Some? ==> |Hex.Decode(other).value| == |Hex.Decode(privKey).value|
    ensures DecryptDefined(New(nonceStr, pubKey, privKey, num, userId, msgId), nonceStr, pubKey, other)
    ensures Decrypt(New(nonceStr, pubKey, privKey, num, userId, msgId), nonceStr, pubKey, other)
         == if Hex.Decode(other) == Hex.Decode(privKey) then Ok(num) else Err
  {
    var t := New(nonceStr, pubKey, privKey, num, userId, msgId);
    var key := CipherKey(pubKey, privKey);
    var plaintext := AsciiBytes(ToDecimal(num));
    var ciphertext := Aead.Seal(key, Nonce(nonceStr), plaintext);
    TokenCiphertext(nonceStr, pubKey, privKey, num, userId, msgId);
    if Hex.Decode(other).Some? {
      var otherKey := CipherKey(pubKey, other);
      if Hex.Decode(other) == Hex.Decode(privKey) {
        Aead.OpenSeal(key, Nonce(nonceStr), plaintext);
        PlaintextParses(num);
      } else {
        assert otherKey[|Hex.Decode(pubKey).value|..] == Hex.Decode(other).value;
        assert key[|Hex.Decode(pubKey).value|..] == Hex.Decode(privKey).value;
        Aead.OpenSealOtherKey(key, otherKey, Nonce(nonceStr), plaintext);
      }
    }
  }

  /** The stored token is the hex text of the sealed decimal plaintext. */
  lemma TokenCiphertext(nonceStr: seq<byte>, pubKey: string, privKey: string, num: int,
                        userId: UserId, msgId: MessageId)
    requires Hex.Decode(pubKey).Some? && Hex.Decode(privKey).Some?
    requires |CipherKey(pubKey, privKey)| == AesKeyLen
    requires |nonceStr| <= NonceLen
    requires InI64(num)
    ensures IsAscii(ToDecimal(num))
    ensures New(nonceStr, pubKey, privKey, num, userId, msgId).token
         == Hex.Encode(Aead.Seal(CipherKey(pubKey, privKey), Nonce(nonceStr), AsciiBytes(ToDecimal(num))))
    ensures Hex.Decode(New(nonceStr, pubKey, privKey, num, userId, msgId).token)
         == Some(Aead.Seal(CipherKey(pubKey, privKey), Nonce(nonceStr), AsciiBytes(ToDecimal(num))))
  {
    DecodeEncode(Aead.Seal(CipherKey(pubKey, privKey), Nonce(nonceStr), AsciiBytes(ToDecimal(num))));
  }

  /** The plaintext bytes of a number read back as text and parse to that number. */
  lemma PlaintextParses(num: int)
    requires InI64(num)
    ensures IsAscii(ToDecimal(num))
    ensures AsciiText(AsciiBytes(ToDecimal(num))) == Some(ToDecimal(num))
    ensures ParseI64(ToDecimal(num)) == Some(num)
  {
    var text := ToDecimal(num);
    assert AsciiText(AsciiBytes(text)).value == text;
    ParseToDecimal(num);
  }

  /** A token decrypts, under the keys and nonce it was made with, to the number it was made from. */
  lemma RoundTrip(nonceStr: seq<byte>, pubKey: string, privKey: string, num: int,
                  userId: UserId, msgId: MessageId)
    requires Hex.Decode(pubKey).Some? && Hex.Decode(privKey).Some?
    requires |CipherKey(pubKey, privKey)| == AesKeyLen
    requires |nonceStr| <= NonceLen
    requires InI64(num)
    ensures DecryptDefined(New(nonceStr, pubKey, privKey, num, userId, msgId), nonceStr, pubKey, privKey)
    ensures Decrypt(New(nonceStr, pubKey, privKey, num, userId, msgId), nonceStr, pubKey, privKey) == Ok(num)
  {
    DecryptNew(nonceStr, pubKey, privKey, num, userId, msgId, privKey);
  }
}
