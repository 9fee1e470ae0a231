/**
 * Pure definitions behind the vote ledger of src/bot.rs: which stored
 * tokens are live, what decoding a voter's list under a session key gives,
 * and how tallies relate to the live tokens.
 */
module Ledger {
  import opened Wrappers
  import opened Hex
  import opened Decimal
  import opened PollTokens

  /** The most vote tokens one voter holds at a time. */
  const Capacity: nat := 3
  /** Bytes in the poll key half and in a session key half (AES_KEY_LEN / 2). */
  const HalfKeyLen: nat := AesKeyLen / 2

  /** A key half as the source draws it: hex of HalfKeyLen random bytes. */
  predicate WellFormedHalfKey(key: string) {
    Hex.Decode(key).Some? && |Hex.Decode(key).value| == HalfKeyLen
  }

  /** A session key half `decrypt` can be given without panicking. */
  predicate SessionKeyFits(key: string) {
    Hex.Decode(key).Some? ==> |Hex.Decode(key).value| == HalfKeyLen
  }

  /** Two key halves denote the same session when they decode to the same bytes. */
  predicate SameSession(a: string, b: string) {
    Hex.Decode(a) == Hex.Decode(b)
  }

  /** What a live token was made from: its candidate and the session key half of that menu. */
  datatype Mint = Mint(choice: int, session: string)

  /** `t` is the token `PollToken::new` makes for `m`, for a candidate among the first `n`. */
  predicate LiveToken(t: PollToken, m: Mint, userId: UserId, nonce: seq<byte>, pollKey: string, n: nat) {
    && |nonce| <= NonceLen
    && WellFormedHalfKey(pollKey)
    && WellFormedHalfKey(m.session)
    && 1 <= m.choice <= n
    && InI64(m.choice)
    && t == New(nonce, pollKey, m.session, m.choice, userId, 0)
  }

  /** A voter's stored list: at most Capacity live tokens, each with its mint. */
  predicate LiveList(list: seq<PollToken>, mints: seq<Mint>, userId: UserId, nonce: seq<byte>, pollKey: string, n: nat) {
    && |list| == |mints| <= Capacity
    && forall i {:trigger LiveToken(list[i], mints[i], userId, nonce, pollKey, n)} ::
         0 <= i < |list| ==> LiveToken(list[i], mints[i], userId, nonce, pollKey, n)
  }

  /** Every live token's candidate is one of the first `n`. */
  lemma LiveChoice(list: seq<PollToken>, mints: seq<Mint>, userId: UserId, nonce: seq<byte>, pollKey: string, n: nat, i: nat)
    requires LiveList(list, mints, userId, nonce, pollKey, n)
    requires i < |mints|
    ensures 1 <= mints[i].choice <= n
  {
    assert LiveToken(list[i], mints[i], userId, nonce, pollKey, n);
  }

  predicate AllDefined(list: seq<PollToken>, nonce: seq<byte>, pollKey: string, key: string) {
    forall i :: 0 <= i < |list| ==> DecryptDefined(list[i], nonce, pollKey, key)
  }

  /** Every token of `list` decrypted under the session key half `key`, in storage order. */
  function DecodeAll(list: seq<PollToken>, nonce: seq<byte>, pollKey: string, key: string): (ds: seq<Result<int>>)
    requires AllDefined(list, nonce, pollKey, key)
    ensures |ds| == |list|
  {
    seq(|list|, i requires 0 <= i < |list| && DecryptDefined(list[i], nonce, pollKey, key) =>
      Decrypt(list[i], nonce, pollKey, key))
  }

  /**
   * A live token decrypts under `key` to its own candidate when `key` is
   * its session, and fails under every other session.
   */
  lemma DecodeLive(t: PollToken, m: Mint, userId: UserId, nonce: seq<byte>, pollKey: string, n: nat, key: string)
    requires LiveToken(t, m, userId, nonce, pollKey, n)
    requires SessionKeyFits(key)
    ensures DecryptDefined(t, nonce, pollKey, key)
    ensures Decrypt(t, nonce, pollKey, key) == if SameSession(key, m.session) then Ok(m.choice) else Err
  {
    DecryptNew(nonce, pollKey, m.session, m.choice, userId, 0, key);
  }

  /**
   * What decrypting a voter's tokens under `key` must give, read off the
   * mints alone: the candidate where `key` is the token's session, a
   * failure elsewhere.
   */
  function Expected(mints: seq<Mint>, key: string): (ds: seq<Result<int>>)
    ensures |ds| == |mints|
    ensures forall i :: 0 <= i < |mints| ==> (ds[i].Ok? <==> SameSession(key, mints[i].session))
    ensures forall i :: 0 <= i < |mints| && ds[i].Ok? ==> ds[i].value == mints[i].choice
  {
    seq(|mints|, i requires 0 <= i < |mints| =>
      if SameSession(key, mints[i].session) then Ok(mints[i].choice) else Err)
  }

  /** Decrypting a voter's live list under `key` gives exactly what the mints predict. */
  lemma DecodeLiveList(list: seq<PollToken>, mints: seq<Mint>, userId: UserId, nonce: seq<byte>,
                       pollKey: string, n: nat, key: string)
    requires LiveList(list, mints, userId, nonce, pollKey, n)
    requires list != [] ==> SessionKeyFits(key)
    ensures AllDefined(list, nonce, pollKey, key)
    ensures DecodeAll(list, nonce, pollKey, key) == Expected(mints, key)
  {
    forall i | 0 <= i < |list|
      ensures DecryptDefined(list[i], nonce, pollKey, key)
      ensures Decrypt(list[i], nonce, pollKey, key) == Expected(mints, key)[i]
    {
      DecodeLive(list[i], mints[i], userId, nonce, pollKey, n, key);
    }
  }

  /** Within one voter's live list, two tokens with the same ciphertext come from the same vote. */
  lemma TokensDiffer(list: seq<PollToken>, mints: seq<Mint>, userId: UserId, nonce: seq<byte>,
                     pollKey: string, n: nat, i: nat, j: nat)
    requires LiveList(list, mints, userId, nonce, pollKey, n)
    requires i < |list| && j < |list|
    requires !SameSession(mints[i].session, mints[j].session) || mints[i].choice != mints[j].choice
    ensures list[i].token != list[j].token
  {
    DecodeLive(list[i], mints[i], userId, nonce, pollKey, n, mints[i].session);
    DecodeLive(list[j], mints[j], userId, nonce, pollKey, n, mints[i].session);
  }

  predicate AllOk(ds: seq<Result<int>>) {
    forall i :: 0 <= i < |ds| ==> ds[i].Ok?
  }

  /** The `cnt` of the vote callback: how many tokens decrypted. */
  function CountOk(ds: seq<Result<int>>): (c: nat)
    ensures c <= |ds|
  {
    if ds == [] then 0 else CountOk(ds[..|ds| - 1]) + if ds[|ds| - 1].Ok? then 1 else 0
  }

  /** `cnt == list.len()` holds exactly when every token decrypted. */
  lemma {:induction false} CountOkAll(ds: seq<Result<int>>)
    ensures CountOk(ds) == |ds| <==> AllOk(ds)
  {
    if ds != [] {
      var init := ds[..|ds| - 1];
      CountOkAll(init);
      if AllOk(ds) {
        assert AllOk(init);
      } else if AllOk(init) {
        assert ds[|ds| - 1].Err?;
      }
    }
  }

  /** The first position decrypting to `target`, or |ds| when there is none. */
  function FirstIndexOf(ds: seq<Result<int>>, target: int): (i: nat)
    ensures i <= |ds|
    ensures i < |ds| ==> ds[i] == Ok(target)
    ensures forall j :: 0 <= j < i ==> ds[j] != Ok(target)
  {
    if ds == [] then 0
    else if ds[0] == Ok(target) then 0
    else 1 + FirstIndexOf(ds[1..], target)
  }

  /** The decrypted candidates, in storage order (the check callback's report). */
  function OkValues(ds: seq<Result<int>>): seq<int> {
    if ds == [] then []
    else OkValues(ds[..|ds| - 1]) + if ds[|ds| - 1].Ok? then [ds[|ds| - 1].value] else []
  }

  /** How many positions decrypt to `c`. */
  function CountOf(ds: seq<Result<int>>, c: int): nat {
    if ds == [] then 0 else CountOf(ds[..|ds| - 1], c) + if ds[|ds| - 1] == Ok(c) then 1 else 0
  }

  /** The elements of `s` whose position failed to decrypt, in order. */
  function Keep<T>(s: seq<T>, ds: seq<Result<int>>): (r: seq<T>)
    requires |s| == |ds|
    ensures |r| == |ds| - CountOk(ds)
  {
    if s == [] then []
    else Keep(s[..|s| - 1], ds[..|ds| - 1]) + if ds[|ds| - 1].Err? then [s[|s| - 1]] else []
  }

  predicate OkWithin(ds: seq<Result<int>>, n: int) {
    forall i :: 0 <= i < |ds| && ds[i].Ok? ==> 1 <= ds[i].value <= n
  }

  /** The tallies with candidate `c`'s moved by `d`. */
  function Shift(votes: seq<int>, c: int, d: int): (r: seq<int>)
    requires 1 <= c <= |votes|
    ensures |r| == |votes|
  {
    votes[c - 1 := votes[c - 1] + d]
  }

  /** The tallies after one decrement for every position that decrypted, as the clear callback does. */
  function Untally(votes: seq<int>, ds: seq<Result<int>>): (r: seq<int>)
    ensures |r| == |votes|
  {
    if ds == [] then votes
    else
      var prev := Untally(votes, ds[..|ds| - 1]);
      var d := ds[|ds| - 1];
      if d.Ok? && 1 <= d.value <= |prev| then Shift(prev, d.value, -1) else prev
  }

  /** Each tally drops by the number of decrypted tokens for that candidate. */
  lemma {:induction false} UntallyCount(votes: seq<int>, ds: seq<Result<int>>, i: nat)
    requires OkWithin(ds, |votes|)
    requires i < |votes|
    ensures Untally(votes, ds)[i] == votes[i] - CountOf(ds, i + 1)
  {
    if ds != [] {
      UntallyCount(votes, ds[..|ds| - 1], i);
    }
  }

  /** One step of the clear loop on the tallies: position `k` is withdrawn exactly when it decrypted to a candidate. */
  lemma UntallyStep(votes: seq<int>, ds: seq<Result<int>>, k: nat)
    requires k < |ds|
    ensures Untally(votes, ds[..k + 1]) ==
              if ds[k].Ok? && 1 <= ds[k].value <= |votes|
              then Shift(Untally(votes, ds[..k]), ds[k].value, -1)
              else Untally(votes, ds[..k])
  {
    assert ds[..k + 1][..k] == ds[..k];
  }

  /**
   * One step of the clear loop on a stored list: with the first `k`
   * positions already filtered, dropping position `k` when it decrypted
   * (and keeping it otherwise) filters the first `k + 1`.
   */
  lemma KeepStep<T>(s: seq<T>, ds: seq<Result<int>>, k: nat)
    requires |s| == |ds| && k < |s|
    ensures |Keep(s[..k], ds[..k])| < |Keep(s[..k], ds[..k]) + s[k..]|
    ensures (Keep(s[..k], ds[..k]) + s[k..])[|Keep(s[..k], ds[..k])|] == s[k]
    ensures ds[k].Ok? ==>
              RemoveAt(Keep(s[..k], ds[..k]) + s[k..], |Keep(s[..k], ds[..k])|) == Keep(s[..k + 1], ds[..k + 1]) + s[k + 1..]
    ensures ds[k].Err? ==> Keep(s[..k], ds[..k]) + s[k..] == Keep(s[..k + 1], ds[..k + 1]) + s[k + 1..]
  {
    var kept := Keep(s[..k], ds[..k]);
    assert s[..k + 1][..k] == s[..k] && ds[..k + 1][..k] == ds[..k];
    assert s[k..] == [s[k]] + s[k + 1..];
    if ds[k].Ok? {
      assert Keep(s[..k + 1], ds[..k + 1]) == kept;
      assert RemoveAt(kept + s[k..], |kept|) == kept + s[k + 1..];
    } else {
      assert Keep(s[..k + 1], ds[..k + 1]) == kept + [s[k]];
    }
  }

  /** Before the clear loop nothing is filtered; after it the whole list is. */
  lemma KeepEnds<T>(s: seq<T>, ds: seq<Result<int>>)
    requires |s| == |ds|
    ensures Keep(s[..0], ds[..0]) + s[0..] == s
    ensures Keep(s[..|s|], ds[..|s|]) + s[|s|..] == Keep(s, ds)
  {
    assert s[..0] == [] && s[0..] == s;
    assert s[..|s|] == s && ds[..|s|] == ds && s[|s|..] == [];
  }

  /** What a prefix of the mints predicts is the prefix of the prediction. */
  lemma ExpectedPrefix(mints: seq<Mint>, key: string, k: nat)
    requires k <= |mints|
    ensures Expected(mints, key)[..k] == Expected(mints[..k], key)
  {
  }

  function RemoveAt<T>(s: seq<T>, i: nat): (r: seq<T>)
    requires i < |s|
    ensures |r| == |s| - 1
    ensures forall j :: 0 <= j < i ==> r[j] == s[j]
    ensures forall j :: i <= j < |r| ==> r[j] == s[j + 1]
  {
    s[..i] + s[i + 1..]
  }

  /** The store's `remove_token(id, token)`: drop the first entry with that ciphertext. */
  function RemoveToken(list: seq<PollToken>, token: string): seq<PollToken> {
    if list == [] then []
    else if list[0].token == token then list[1..]
    else [list[0]] + RemoveToken(list[1..], token)
  }

  /** Removing by value removes the first entry holding that ciphertext. */
  lemma {:induction false} RemoveTokenAt(list: seq<PollToken>, i: nat)
    requires i < |list|
    requires forall j :: 0 <= j < i ==> list[j].token != list[i].token
    ensures RemoveToken(list, list[i].token) == RemoveAt(list, i)
  {
    if i > 0 {
      RemoveTokenAt(list[1..], i - 1);
    }
  }

  /** The choices of the mints made in the session `key`, in order. */
  function SessionChoices(mints: seq<Mint>, key: string): seq<int> {
    if mints == [] then []
    else SessionChoices(mints[..|mints| - 1], key) +
         if SameSession(key, mints[|mints| - 1].session) then [mints[|mints| - 1].choice] else []
  }

  /** What the check callback reports is what the voter chose in this session. */
  lemma {:induction false} OkValuesLive(mints: seq<Mint>, key: string)
    ensures OkValues(Expected(mints, key)) == SessionChoices(mints, key)
  {
    if mints != [] {
      var init := mints[..|mints| - 1];
      assert Expected(mints, key)[..|mints| - 1] == Expected(init, key);
      OkValuesLive(init, key);
    }
  }

  /** The mints left after removing those of session `key` all belong to other sessions. */
  lemma {:induction false} KeepOtherSessions(mints: seq<Mint>, key: string)
    ensures forall j :: 0 <= j < |Keep(mints, Expected(mints, key))| ==>
              !SameSession(key, Keep(mints, Expected(mints, key))[j].session)
  {
    if mints != [] {
      var init := mints[..|mints| - 1];
      assert Expected(mints, key)[..|mints| - 1] == Expected(init, key);
      KeepOtherSessions(init, key);
    }
  }

  /** Every candidate a live list reports lies among the first `n`. */
  lemma {:induction false} SessionChoicesWithin(mints: seq<Mint>, key: string, n: int)
    requires forall i :: 0 <= i < |mints| ==> 1 <= mints[i].choice <= n
    ensures forall j :: 0 <= j < |SessionChoices(mints, key)| ==> 1 <= SessionChoices(mints, key)[j] <= n
  {
    if mints != [] {
      SessionChoicesWithin(mints[..|mints| - 1], key, n);
    }
  }

  function Choices(mints: seq<Mint>): multiset<int> {
    multiset(seq(|mints|, i requires 0 <= i < |mints| => mints[i].choice))
  }

  lemma ChoicesRemoveAt(mints: seq<Mint>, i: nat)
    requires i < |mints|
    ensures Choices(RemoveAt(mints, i)) + multiset{mints[i].choice} == Choices(mints)
  {
    var cs := seq(|mints|, k requires 0 <= k < |mints| => mints[k].choice);
    var rs := RemoveAt(mints, i);
    var crs := seq(|rs|, k requires 0 <= k < |rs| => rs[k].choice);
    assert cs == cs[..i] + [cs[i]] + cs[i + 1..] by {}
    assert crs == cs[..i] + cs[i + 1..] by {}
    assert multiset(crs) == multiset(cs[..i]) + multiset(cs[i + 1..]);
    assert multiset(cs) == multiset(cs[..i]) + multiset{cs[i]} + multiset(cs[i + 1..]);
  }

  lemma ChoicesAppend(mints: seq<Mint>, m: Mint)
    ensures Choices(mints + [m]) == Choices(mints) + multiset{m.choice}
  {
    var cs := seq(|mints|, k requires 0 <= k < |mints| => mints[k].choice);
    var ms := mints + [m];
    assert seq(|ms|, k requires 0 <= k < |ms| => ms[k].choice) == cs + [m.choice];
  }

  /** A non-empty set of voters has a member to take first. */
  lemma Inhabited(keys: set<UserId>)
    ensures keys != {} ==> exists u :: u in keys
  {
    if forall u :: u !in keys {
      assert keys == {};
    }
  }

  lemma InhabitedBag(b: multiset<int>)
    ensures b != multiset{} ==> exists c :: c in b
  {
    if forall c :: c !in b {
      assert b == multiset{};
    }
  }

  /** The candidates of all live tokens of the voters in `keys`. */
  ghost function BallotsOver(m: map<UserId, seq<Mint>>, keys: set<UserId>): multiset<int>
    requires keys <= m.Keys
    decreases keys
  {
    if keys == {} then multiset{}
    else
      Inhabited(keys);
      var u :| u in keys;
      Choices(m[u]) + BallotsOver(m, keys - {u})
  }

  /** The candidates of all live tokens; `BallotsCount` shows its size is the number of stored tokens. */
  ghost function Ballots(m: map<UserId, seq<Mint>>): multiset<int> {
    BallotsOver(m, m.Keys)
  }

  /** The number of tokens stored for the voters in `keys`. */
  ghost function StoredOver(tokens: map<UserId, seq<PollToken>>, keys: set<UserId>): nat
    requires keys <= tokens.Keys
    decreases keys
  {
    if keys == {} then 0
    else
      Inhabited(keys);
      var u :| u in keys;
      |tokens[u]| + StoredOver(tokens, keys - {u})
  }

  /** The number of tokens in the store. */
  ghost function Stored(tokens: map<UserId, seq<PollToken>>): nat {
    StoredOver(tokens, tokens.Keys)
  }

  lemma {:induction false} BallotsCountOver(tokens: map<UserId, seq<PollToken>>, m: map<UserId, seq<Mint>>,
                                           keys: set<UserId>)
    requires keys <= tokens.Keys && keys <= m.Keys
    requires forall u :: u in keys ==> |tokens[u]| == |m[u]|
    ensures |BallotsOver(m, keys)| == StoredOver(tokens, keys)
    decreases keys
  {
    if keys != {} {
      Inhabited(keys);
      var u :| u in keys && StoredOver(tokens, keys) == |tokens[u]| + StoredOver(tokens, keys - {u});
      BallotsPick(m, keys, u);
      BallotsCountOver(tokens, m, keys - {u});
    }
  }

  /** A live store has one ballot per stored token. */
  lemma BallotsCount(tokens: map<UserId, seq<PollToken>>, minted: map<UserId, seq<Mint>>,
                     nonce: seq<byte>, pollKey: string, n: nat)
    requires LiveStore(tokens, minted, nonce, pollKey, n)
    ensures |Ballots(minted)| == Stored(tokens)
  {
    forall u | u in tokens
      ensures |tokens[u]| == |minted[u]|
    {
      assert LiveList(tokens[u], minted[u], u, nonce, pollKey, n);
    }
    BallotsCountOver(tokens, minted, tokens.Keys);
  }

  /** The fold may take the voters in any order. */
  lemma BallotsPick(m: map<UserId, seq<Mint>>, keys: set<UserId>, u: UserId)
    requires keys <= m.Keys && u in keys
    ensures BallotsOver(m, keys) == Choices(m[u]) + BallotsOver(m, keys - {u})
    decreases keys
  {
    var v :| v in keys && BallotsOver(m, keys) == Choices(m[v]) + BallotsOver(m, keys - {v});
    if v != u {
      BallotsPick(m, keys - {v}, u);
      BallotsPick(m, keys - {u}, v);
      assert keys - {v} - {u} == keys - {u} - {v};
    }
  }

  /** Only the voters in `keys` matter. */
  lemma BallotsFrame(m: map<UserId, seq<Mint>>, m': map<UserId, seq<Mint>>, keys: set<UserId>)
    requires keys <= m.Keys && keys <= m'.Keys
    requires forall u :: u in keys ==> m[u] == m'[u]
    ensures BallotsOver(m, keys) == BallotsOver(m', keys)
    decreases keys
  {
    if keys != {} {
      Inhabited(keys);
      var u :| u in keys;
      BallotsPick(m, keys, u);
      BallotsPick(m', keys, u);
      BallotsFrame(m, m', keys - {u});
    }
  }

  function Lookup(m: map<UserId, seq<Mint>>, u: UserId): seq<Mint> {
    if u in m then m[u] else []
  }

  /** Replacing one voter's list swaps that voter's choices in the ballots. */
  lemma BallotsUpdate(m: map<UserId, seq<Mint>>, u: UserId, s: seq<Mint>)
    ensures Ballots(m[u := s]) + Choices(Lookup(m, u)) == Ballots(m) + Choices(s)
  {
    var m' := m[u := s];
    BallotsPick(m', m'.Keys, u);
    BallotsFrame(m, m', m.Keys - {u});
    assert m'.Keys - {u} == m.Keys - {u};
    if u in m {
      BallotsPick(m, m.Keys, u);
    } else {
      assert m.Keys - {u} == m.Keys;
      assert Choices([]) == multiset{};
    }
  }

  /** Every ballot is a candidate among the first `n` when every mint is. */
  lemma BallotsWithin(m: map<UserId, seq<Mint>>, keys: set<UserId>, n: int)
    requires keys <= m.Keys
    requires forall u, i :: u in m && 0 <= i < |m[u]| ==> 1 <= m[u][i].choice <= n
    ensures forall c :: c in BallotsOver(m, keys) ==> 1 <= c <= n
    decreases keys
  {
    if keys != {} {
      Inhabited(keys);
      var u :| u in keys;
      BallotsPick(m, keys, u);
      BallotsWithin(m, keys - {u}, n);
      var cs := seq(|m[u]|, k requires 0 <= k < |m[u]| => m[u][k].choice);
      forall c | c in Choices(m[u]) ensures 1 <= c <= n {
        assert c in cs;
      }
    }
  }

  function Sum(s: seq<int>): int {
    if s == [] then 0 else Sum(s[..|s| - 1]) + s[|s| - 1]
  }

  lemma {:induction false} SumUpdate(s: seq<int>, j: nat, d: int)
    requires j < |s|
    ensures Sum(s[j := s[j] + d]) == Sum(s) + d
  {
    var n := |s|;
    var t := s[j := s[j] + d];
    assert t[..n - 1] == if j < n - 1 then s[..n - 1][j := s[j] + d] else s[..n - 1];
    if j < n - 1 {
      SumUpdate(s[..n - 1], j, d);
    }
  }

  lemma {:induction false} SumZero(s: seq<int>)
    requires forall i :: 0 <= i < |s| ==> s[i] == 0
    ensures Sum(s) == 0
  {
    if s != [] {
      SumZero(s[..|s| - 1]);
    }
  }

  /** Taking one ballot for `c` out of the bag lowers only `c`'s tally. */
  lemma CountsWithout(votes: seq<int>, b: multiset<int>, c: int)
    requires forall i :: 0 <= i < |votes| ==> votes[i] == b[i + 1]
    requires forall x :: x in b ==> 1 <= x <= |votes|
    requires c in b
    ensures 1 <= c <= |votes|
    ensures forall i :: 0 <= i < |votes| ==> Shift(votes, c, -1)[i] == (b - multiset{c})[i + 1]
    ensures forall x :: x in b - multiset{c} ==> 1 <= x <= |votes|
  {
    var votes', b' := Shift(votes, c, -1), b - multiset{c};
    forall i | 0 <= i < |votes|
      ensures votes'[i] == b'[i + 1]
    {
      assert votes'[i] == if i == c - 1 then votes[i] - 1 else votes[i];
    }
    forall x | x in b'
      ensures 1 <= x <= |votes|
    {
      assert x in b;
    }
  }

  /**
   * Tallies that count the ballots candidate by candidate add up to the
   * number of ballots.
   */
  lemma {:induction false} SumCounts(votes: seq<int>, b: multiset<int>)
    requires forall i :: 0 <= i < |votes| ==> votes[i] == b[i + 1]
    requires forall c :: c in b ==> 1 <= c <= |votes|
    ensures Sum(votes) == |b|
    decreases |b|
  {
    if b == multiset{} {
      SumZero(votes);
    } else {
      InhabitedBag(b);
      var c :| c in b;
      CountsWithout(votes, b, c);
      var votes', b' := Shift(votes, c, -1), b - multiset{c};
      assert |b| == |b'| + 1;
      SumCounts(votes', b');
      SumUpdate(votes', c - 1, 1);
      assert Shift(votes', c, 1) == votes by {}
    }
  }

  /**
   * Removing a voter's token by its ciphertext removes it at its position
   * when no earlier token of the list comes from the same vote.
   */
  lemma RemoveLiveToken(list: seq<PollToken>, mints: seq<Mint>, userId: UserId, nonce: seq<byte>,
                        pollKey: string, n: nat, i: nat)
    requires LiveList(list, mints, userId, nonce, pollKey, n)
    requires i < |list|
    requires forall j :: 0 <= j < i ==>
               !SameSession(mints[i].session, mints[j].session) || mints[j].choice != mints[i].choice
    ensures RemoveToken(list, list[i].token) == RemoveAt(list, i)
    ensures LiveList(RemoveAt(list, i), RemoveAt(mints, i), userId, nonce, pollKey, n)
  {
    forall j | 0 <= j < i
      ensures list[j].token != list[i].token
    {
      TokensDiffer(list, mints, userId, nonce, pollKey, n, i, j);
    }
    RemoveTokenAt(list, i);
  }

  /** Withdrawing one token takes its candidate out of the ballots once. */
  lemma BallotsRemove(m: map<UserId, seq<Mint>>, u: UserId, i: nat)
    requires u in m && i < |m[u]|
    ensures Ballots(m[u := RemoveAt(m[u], i)]) + multiset{m[u][i].choice} == Ballots(m)
  {
    BallotsUpdate(m, u, RemoveAt(m[u], i));
    ChoicesRemoveAt(m[u], i);
    var b' := Ballots(m[u := RemoveAt(m[u], i)]);
    var c := Choices(RemoveAt(m[u], i));
    assert b' + (c + multiset{m[u][i].choice}) == Ballots(m) + c;
    forall x
      ensures (b' + multiset{m[u][i].choice})[x] == Ballots(m)[x]
    {
      assert (b' + (c + multiset{m[u][i].choice}))[x] == (Ballots(m) + c)[x];
    }
  }

  /** Storing one token adds its candidate to the ballots once. */
  lemma BallotsAppend(m: map<UserId, seq<Mint>>, u: UserId, x: Mint)
    ensures Ballots(m[u := Lookup(m, u) + [x]]) == Ballots(m) + multiset{x.choice}
  {
    BallotsUpdate(m, u, Lookup(m, u) + [x]);
    ChoicesAppend(Lookup(m, u), x);
    var b' := Ballots(m[u := Lookup(m, u) + [x]]);
    var c := Choices(Lookup(m, u));
    forall y
      ensures b'[y] == (Ballots(m) + multiset{x.choice})[y]
    {
      assert (b' + c)[y] == (Ballots(m) + (c + multiset{x.choice}))[y];
    }
  }

  /** Tallies that count the ballots still count them after one ballot for `c` is added or withdrawn. */
  lemma TallyShift(votes: seq<int>, votes': seq<int>, b: multiset<int>, b': multiset<int>, c: int, d: int)
    requires 1 <= c <= |votes|
    requires votes' == Shift(votes, c, d)
    requires forall j :: 0 <= j < |votes| ==> votes[j] == b[j + 1]
    requires d == 1 || d == -1
    requires d == 1 ==> b' == b + multiset{c}
    requires d == -1 ==> b' + multiset{c} == b
    ensures forall j :: 0 <= j < |votes'| ==> votes'[j] == b'[j + 1]
  {
  }

  /** Writing back a key's own value leaves a map as it was. */
  lemma UpdateSame<K, V>(m: map<K, V>, k: K)
    requires k in m
    ensures m[k := m[k]] == m
  {
  }

  /** A second update of the same key overrides the first. */
  lemma UpdateTwice<K, V>(m: map<K, V>, k: K, v: V, w: V)
    ensures m[k := v][k := w] == m[k := w]
  {
  }

  /** Every stored token is live, and each voter's mints run parallel to their tokens. */
  ghost predicate LiveStore(tokens: map<UserId, seq<PollToken>>, minted: map<UserId, seq<Mint>>,
                            nonce: seq<byte>, pollKey: string, n: nat)
  {
    && tokens.Keys == minted.Keys
    && forall u {:trigger LiveList(tokens[u], minted[u], u, nonce, pollKey, n)} ::
         u in tokens ==> LiveList(tokens[u], minted[u], u, nonce, pollKey, n)
  }

  /** Each tally counts the live tokens for its candidate. */
  ghost predicate Counts(votes: seq<int>, minted: map<UserId, seq<Mint>>) {
    forall i :: 0 <= i < |votes| ==> votes[i] == Ballots(minted)[i + 1]
  }

  lemma LiveStoreUpdate(tokens: map<UserId, seq<PollToken>>, minted: map<UserId, seq<Mint>>,
                        nonce: seq<byte>, pollKey: string, n: nat,
                        u: UserId, list: seq<PollToken>, mints: seq<Mint>)
    requires LiveStore(tokens, minted, nonce, pollKey, n)
    requires LiveList(list, mints, u, nonce, pollKey, n)
    ensures LiveStore(tokens[u := list], minted[u := mints], nonce, pollKey, n)
  {
  }

  /** Withdrawing a token and decrementing its candidate keeps the tallies counting. */
  lemma CountsRemove(votes: seq<int>, minted: map<UserId, seq<Mint>>, u: UserId, i: nat)
    requires Counts(votes, minted)
    requires u in minted && i < |minted[u]|
    requires 1 <= minted[u][i].choice <= |votes|
    ensures var c := minted[u][i].choice;
            Counts(Shift(votes, c, -1), minted[u := RemoveAt(minted[u], i)])
  {
    var c := minted[u][i].choice;
    BallotsRemove(minted, u, i);
    TallyShift(votes, Shift(votes, c, -1), Ballots(minted), Ballots(minted[u := RemoveAt(minted[u], i)]), c, -1);
  }

  /** Storing a token and incrementing its candidate keeps the tallies counting. */
  lemma CountsAppend(votes: seq<int>, minted: map<UserId, seq<Mint>>, u: UserId, m: Mint)
    requires Counts(votes, minted)
    requires 1 <= m.choice <= |votes|
    ensures Counts(Shift(votes, m.choice, 1), minted[u := Lookup(minted, u) + [m]])
  {
    BallotsAppend(minted, u, m);
    TallyShift(votes, Shift(votes, m.choice, 1), Ballots(minted), Ballots(minted[u := Lookup(minted, u) + [m]]), m.choice, 1);
  }
}
