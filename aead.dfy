/**
 * A transparent stand-in for the AES-256-GCM-SIV cipher. The sealed text
 * is the key and nonce followed by the plaintext; opening checks that
 * prefix. It hides nothing, but it has exactly the two properties the
 * vote-token code relies on: opening under the sealing key and nonce gives
 * the plaintext back, and opening under another key of the same length
 * fails authentication.
 */
module Aead {
  import opened Wrappers
  import opened Hex

  function Seal(key: seq<byte>, nonce: seq<byte>, plaintext: seq<byte>): (ciphertext: seq<byte>)
    ensures |ciphertext| == |key| + |nonce| + |plaintext|
  {
    key + nonce + plaintext
  }

  function Open(key: seq<byte>, nonce: seq<byte>, ciphertext: seq<byte>): Option<seq<byte>> {
    var header := key + nonce;
    if |header| <= |ciphertext| && ciphertext[..|header|] == header
    then Some(ciphertext[|header|..])
    else None
  }

  lemma OpenSeal(key: seq<byte>, nonce: seq<byte>, plaintext: seq<byte>)
    ensures Open(key, nonce, Seal(key, nonce, plaintext)) == Some(plaintext)
  {
    var ct := Seal(key, nonce, plaintext);
    assert ct[..|key + nonce|] == key + nonce;
    assert ct[|key + nonce|..] == plaintext;
  }

  lemma OpenSealOtherKey(key: seq<byte>, other: seq<byte>, nonce: seq<byte>, plaintext: seq<byte>)
    requires |other| == |key| && other != key
    ensures Open(other, nonce, Seal(key, nonce, plaintext)).None?
  {
    var ct := Seal(key, nonce, plaintext);
    assert ct[..|other + nonce|][..|key|] == key;
    assert (other + nonce)[..|key|] == other;
  }
}
