/**
 * The invitation-code issuer (src/token_service.rs): a set of outstanding
 * codes, each the hex text of a SHA3-256 digest of 32 random bytes, and
 * each redeemable once.
 */
module TokenServices {
  import opened Wrappers
  import opened Hex

  /** TOKEN_ORIGIN_LENGTH: random bytes hashed into one code. */
  const TokenOriginLength: nat := 32
  /** Bytes in a SHA3-256 digest. */
  const DigestLen: nat := 32

  /** One `_gen` attempt with `code` as the freshly hashed code: the result and the new set. */
  function Issue(tokens: set<string>, code: string): (res: (Result<string>, set<string>))
    ensures res.0.Ok? <==> code !in tokens
    ensures res.0.Ok? ==> res.0.value == code && res.1 == tokens + {code} && |res.1| == |tokens| + 1
    ensures res.0.Err? ==> res.1 == tokens
  {
    if code !in tokens then (Ok(code), tokens + {code}) else (Err, tokens)
  }

  /** `remove`: whether `code` was outstanding, and the set without it. */
  function Redeem(tokens: set<string>, code: string): (res: (bool, set<string>))
    ensures res.0 <==> code in tokens
    ensures res.1 == tokens - {code}
    ensures res.0 ==> |res.1| == |tokens| - 1
  {
    if code in tokens then (true, tokens - {code}) else (false, tokens)
  }

  /** A code can be redeemed once: a second redemption fails and changes nothing. */
  lemma RedeemOnce(tokens: set<string>, code: string)
    ensures Redeem(Redeem(tokens, code).1, code) == (false, Redeem(tokens, code).1)
  {
  }

  /** A code just issued is redeemed exactly once, and redeeming it restores the earlier set. */
  lemma IssueThenRedeem(tokens: set<string>, code: string)
    requires Issue(tokens, code).0.Ok?
    ensures Redeem(Issue(tokens, code).1, code) == (true, tokens)
  {
  }

  class TokenService {
    /** The outstanding codes. */
    var tokens: set<string>

    /** `TokenService::new`: no outstanding codes. */
    constructor ()
      ensures tokens == {}
    {
      tokens := {};
    }

    /**
     * `_gen`. The random origin and its SHA3-256 digest are not computed
     * here: `digest` is the digest the source would have drawn.
     */
    method TryGen(digest: seq<byte>) returns (r: Result<string>)
      requires |digest| == DigestLen
      modifies this
      ensures (r, tokens) == Issue(old(tokens), Hex.Encode(digest))
      ensures r.Ok? ==> |r.value| == 2 * DigestLen
    {
      var t := Hex.Encode(digest);
      if t !in tokens {
        tokens := tokens + {t};
        r := Ok(t);
      } else {
        r := Err;
      }
    }

    /**
     * `gen`: retry `_gen` until it succeeds. The random draws are the
     * sequence `digests`, tried in order; the source loops until a fresh
     * code comes up, which the requires states as: one of them is fresh.
     */
    method Gen(digests: seq<seq<byte>>) returns (code: string)
      requires forall i :: 0 <= i < |digests| ==> |digests[i]| == DigestLen
      requires exists i :: 0 <= i < |digests| && Hex.Encode(digests[i]) !in tokens
      modifies this
      ensures code !in old(tokens) && tokens == old(tokens) + {code}
      ensures |tokens| == |old(tokens)| + 1
      ensures |code| == 2 * DigestLen
      ensures exists i :: 0 <= i < |digests| && code == Hex.Encode(digests[i])
    {
      var i := 0;
      var token := TryGen(digests[i]);
      while token.Err?
        invariant 0 <= i < |digests|
        invariant token.Err? ==> tokens == old(tokens)
        invariant token.Err? ==> forall j :: 0 <= j <= i ==> Hex.Encode(digests[j]) in tokens
        invariant token.Ok? ==> token.value == Hex.Encode(digests[i])
        invariant token.Ok? ==> token.value !in old(tokens) && tokens == old(tokens) + {token.value}
        decreases |digests| - i
      {
        i := i + 1;
        token := TryGen(digests[i]);
      }
      code := token.value;
    }

    /** `remove`: an atomic check-and-remove, which makes each code single-use. */
    method Remove(code: string) returns (removed: bool)
      modifies this
      ensures (removed, tokens) == Redeem(old(tokens), code)
    {
      if code in tokens {
        tokens := tokens - {code};
        removed := true;
      } else {
        removed := false;
      }
    }
  }
}
