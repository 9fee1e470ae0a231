/**
 * The election bot of src/bot.rs with its I/O stripped: the open/closed
 * flag, the current poll and its tally, the per-voter store of vote
 * tokens, and the admin and user rosters, as one class whose handlers
 * update them in place.
 */
module BotState {
  import opened Wrappers
  import opened Hex
  import opened Decimal
  import opened PollTokens
  import opened TokenServices
  import opened PollRanking
  import opened Ledger

  /** A poll: its candidates, opening and closing times, poll key half and tallies. */
  datatype PollService = PollService(candidates: seq<string>, start: int, end: int, key: string, votes: seq<int>)

  /**
   * `PollService::new`: zero tallies, one per candidate, and a poll key half
   * that is the hex text of `keyBytes`, the 16 random bytes drawn for it.
   */
  function NewPoll(candidates: seq<string>, start: int, end: int, keyBytes: seq<byte>): (p: PollService)
    requires |keyBytes| == HalfKeyLen
    ensures p.candidates == candidates && p.start == start && p.end == end
    ensures |p.votes| == |candidates|
    ensures forall i :: 0 <= i < |p.votes| ==> p.votes[i] == 0
    ensures Hex.Decode(p.key) == Some(keyBytes) && |p.key| == 2 * HalfKeyLen
  {
    DecodeEncode(keyBytes);
    PollService(candidates, start, end, Hex.Encode(keyBytes), seq(|candidates|, _ => 0))
  }

  /** What a handler answers; the texts themselves are not modelled. */
  datatype Reply =
    | Ignored
    | UnknownCommand
    | AdminOnly
    | PrivateChatOnly
    | NeedCandidates
    | NeedOneMinute
    | AlreadyOpen
    | PollOpened
    | PollClosed(ranking: seq<Place>)
    | NotOpen
    | NotAllowed
    | RetryFromMenu
    | VoteCancelled
    | VoteCast
    | Cleared
    | Report(mine: seq<int>)
    | AlreadyRegistered
    | Registered
    | NoPermission
    | Invite(code: string)
    | AdminAdded
    | InvalidToken

  /** The `cnt` loop of the vote callback: how many of `list` decrypt under `key`. */
  method CountDecodable(list: seq<PollToken>, nonce: seq<byte>, pollKey: string, key: string) returns (cnt: nat)
    requires AllDefined(list, nonce, pollKey, key)
    ensures cnt == CountOk(DecodeAll(list, nonce, pollKey, key))
  {
    ghost var ds := DecodeAll(list, nonce, pollKey, key);
    cnt := 0;
    for k := 0 to |list|
      invariant cnt == CountOk(ds[..k])
    {
      assert ds[..k + 1][..k] == ds[..k];
      var r := Decrypt(list[k], nonce, pollKey, key);
      assert r == ds[k];
      if r.Ok? {
        cnt := cnt + 1;
      }
    }
    assert ds[..|list|] == ds;
  }

  /** The toggle loop: the first token of `list` that decrypts to `target`, or |list|. */
  method FindVote(list: seq<PollToken>, nonce: seq<byte>, pollKey: string, key: string, target: int) returns (i: nat)
    requires AllDefined(list, nonce, pollKey, key)
    ensures i == FirstIndexOf(DecodeAll(list, nonce, pollKey, key), target)
  {
    ghost var ds := DecodeAll(list, nonce, pollKey, key);
    ghost var first := FirstIndexOf(ds, target);
    i := 0;
    while i < |list|
      invariant i <= first
    {
      var r := Decrypt(list[i], nonce, pollKey, key);
      assert r == ds[i];
      if r == Ok(target) {
        break;
      }
      assert i != first;
      i := i + 1;
    }
  }

  /** The eviction loop: the first token of `list` that decrypts at all, and its candidate. */
  method FirstDecodable(list: seq<PollToken>, nonce: seq<byte>, pollKey: string, key: string) returns (i: nat, vote: int)
    requires AllDefined(list, nonce, pollKey, key)
    ensures i <= |list|
    ensures i < |list| ==> DecodeAll(list, nonce, pollKey, key)[i] == Ok(vote)
    ensures forall j :: 0 <= j < i ==> DecodeAll(list, nonce, pollKey, key)[j].Err?
  {
    ghost var ds := DecodeAll(list, nonce, pollKey, key);
    i, vote := 0, 0;
    while i < |list|
      invariant i <= |list|
      invariant forall j :: 0 <= j < i ==> ds[j].Err?
    {
      var r := Decrypt(list[i], nonce, pollKey, key);
      assert r == ds[i];
      if r.Ok? {
        vote := r.value;
        break;
      }
      assert ds[i].Err?;
      i := i + 1;
    }
  }

  /** The check callback's loop: the candidates of the tokens that decrypt, in storage order. */
  method CollectDecoded(list: seq<PollToken>, nonce: seq<byte>, pollKey: string, key: string) returns (vals: seq<int>)
    requires AllDefined(list, nonce, pollKey, key)
    ensures vals == OkValues(DecodeAll(list, nonce, pollKey, key))
  {
    ghost var ds := DecodeAll(list, nonce, pollKey, key);
    vals := [];
    for k := 0 to |list|
      invariant vals == OkValues(ds[..k])
    {
      assert ds[..k + 1][..k] == ds[..k];
      var r := Decrypt(list[k], nonce, pollKey, key);
      assert r == ds[k];
      if r.Ok? {
        vals := vals + [r.value];
      }
    }
    assert ds[..|list|] == ds;
  }

  /**
   * One tally per candidate; every stored token is live for the current
   * poll; no voter holds more than Capacity tokens; while a poll is open
   * each tally counts the live tokens for its candidate; a closed poll
   * has no tokens.
   */
  ghost predicate Consistent(isPresent: bool, poll: PollService, nonce: seq<byte>,
                             tokens: map<UserId, seq<PollToken>>, minted: map<UserId, seq<Mint>>)
  {
    && |nonce| <= NonceLen
    && |poll.votes| == |poll.candidates|
    && WellFormedHalfKey(poll.key)
    && LiveStore(tokens, minted, nonce, poll.key, |poll.votes|)
    && (isPresent ==> Counts(poll.votes, minted))
    && (!isPresent ==> tokens == map[])
  }

  /** The token at `i` of an open poll's store names a candidate, and removing it by value removes position `i`. */
  lemma RevokeTarget(poll: PollService, nonce: seq<byte>, tokens: map<UserId, seq<PollToken>>,
                     minted: map<UserId, seq<Mint>>, u: UserId, i: nat)
    requires Consistent(true, poll, nonce, tokens, minted)
    requires u in tokens && i < |tokens[u]|
    requires u in minted && i < |minted[u]| ==> forall j :: 0 <= j < i ==>
               !SameSession(minted[u][i].session, minted[u][j].session) || minted[u][j].choice != minted[u][i].choice
    ensures u in minted && |minted[u]| == |tokens[u]|
    ensures 1 <= minted[u][i].choice <= |poll.votes|
    ensures RemoveToken(tokens[u], tokens[u][i].token) == RemoveAt(tokens[u], i)
  {
    var n := |poll.votes|;
    assert LiveList(tokens[u], minted[u], u, nonce, poll.key, n);
    assert LiveToken(tokens[u][i], minted[u][i], u, nonce, poll.key, n);
    RemoveLiveToken(tokens[u], minted[u], u, nonce, poll.key, n, i);
  }

  /** Withdrawing a voter's token at `i` and decrementing its candidate keeps an open poll consistent. */
  lemma RevokeKeeps(poll: PollService, nonce: seq<byte>, tokens: map<UserId, seq<PollToken>>,
                    minted: map<UserId, seq<Mint>>, u: UserId, i: nat,
                    poll': PollService, tokens': map<UserId, seq<PollToken>>, minted': map<UserId, seq<Mint>>)
    requires Consistent(true, poll, nonce, tokens, minted)
    requires u in tokens && u in minted && i < |tokens[u]| == |minted[u]|
    requires 1 <= minted[u][i].choice <= |poll.votes|
    requires forall j :: 0 <= j < i ==>
               !SameSession(minted[u][i].session, minted[u][j].session) || minted[u][j].choice != minted[u][i].choice
    requires poll' == poll.(votes := Shift(poll.votes, minted[u][i].choice, -1))
    requires tokens' == tokens[u := RemoveAt(tokens[u], i)]
    requires minted' == minted[u := RemoveAt(minted[u], i)]
    ensures Consistent(true, poll', nonce, tokens', minted')
  {
    var n := |poll.votes|;
    RemoveLiveToken(tokens[u], minted[u], u, nonce, poll.key, n, i);
    LiveStoreUpdate(tokens, minted, nonce, poll.key, n, u, RemoveAt(tokens[u], i), RemoveAt(minted[u], i));
    CountsRemove(poll.votes, minted, u, i);
    assert |poll'.votes| == n && poll'.key == poll.key && |poll'.candidates| == |poll.candidates|;
  }

  /** Storing a new token for `m` and incrementing its candidate keeps an open poll consistent. */
  lemma RecordKeeps(poll: PollService, nonce: seq<byte>, tokens: map<UserId, seq<PollToken>>,
                    minted: map<UserId, seq<Mint>>, u: UserId, m: Mint,
                    poll': PollService, tokens': map<UserId, seq<PollToken>>, minted': map<UserId, seq<Mint>>)
    requires Consistent(true, poll, nonce, tokens, minted)
    requires WellFormedHalfKey(m.session) && 1 <= m.choice <= |poll.votes| && InI64(m.choice)
    requires |if u in tokens then tokens[u] else []| < Capacity
    requires poll' == poll.(votes := Shift(poll.votes, m.choice, 1))
    requires tokens' == tokens[u := (if u in tokens then tokens[u] else []) + [New(nonce, poll.key, m.session, m.choice, u, 0)]]
    requires minted' == minted[u := Lookup(minted, u) + [m]]
    ensures Consistent(true, poll', nonce, tokens', minted')
  {
    var n := |poll.votes|;
    var list := if u in tokens then tokens[u] else [];
    var t := New(nonce, poll.key, m.session, m.choice, u, 0);
    assert LiveList(list, Lookup(minted, u), u, nonce, poll.key, n);
    assert LiveToken(t, m, u, nonce, poll.key, n);
    assert LiveList(list + [t], Lookup(minted, u) + [m], u, nonce, poll.key, n);
    LiveStoreUpdate(tokens, minted, nonce, poll.key, n, u, list + [t], Lookup(minted, u) + [m]);
    CountsAppend(poll.votes, minted, u, m);
    assert |poll'.votes| == n && poll'.key == poll.key && |poll'.candidates| == |poll.candidates|;
  }

  class Bot {
    var isPresent: bool
    var poll: PollService
    var admins: set<UserId>
    var users: set<UserId>
    const adminToken: TokenService
    /** The configured nonce string (`config.security.nonce`). */
    const nonce: seq<byte>
    /** The vote-token store: each voter's tokens in storage order. */
    var tokens: map<UserId, seq<PollToken>>
    /** For each stored token, the candidate and session key half it was made from. */
    ghost var minted: map<UserId, seq<Mint>>

    /** A voter's stored tokens (`fetch_token`). */
    function Held(u: UserId): seq<PollToken>
      reads this
    {
      if u in tokens then tokens[u] else []
    }

    ghost function Mints(u: UserId): seq<Mint>
      reads this
    {
      Lookup(minted, u)
    }

    /** What decrypting `u`'s tokens under `key` gives. */
    ghost function Pending(u: UserId, key: string): seq<Result<int>>
      reads this
    {
      Expected(Mints(u), key)
    }

    /** The token a cast for `target` from the menu of session `key` stores for `u`. */
    ghost function Ballot(u: UserId, target: int, key: string): PollToken
      requires Valid() && WellFormedHalfKey(key) && InI64(target)
      reads this
    {
      New(nonce, poll.key, key, target, u, 0)
    }

    /**
     * One tally per candidate; every stored token is live for the current
     * poll; no voter holds more than Capacity tokens; while a poll is open
     * each tally counts the live tokens for its candidate; a closed poll
     * has no tokens.
     */
    ghost predicate Valid()
      reads this
    {
      Consistent(isPresent, poll, nonce, tokens, minted)
    }

    /** `Bot::new` without the configuration file and the database: no poll is open. */
    constructor (users: set<UserId>, admins: set<UserId>, nonce: seq<byte>, keyBytes: seq<byte>)
      requires |nonce| <= NonceLen
      requires |keyBytes| == HalfKeyLen
      ensures Valid()
      ensures !isPresent && tokens == map[]
      ensures this.users == users && this.admins == admins && this.nonce == nonce
      ensures fresh(adminToken) && adminToken.tokens == {}
    {
      isPresent := false;
      poll := NewPoll([], 0, 0, keyBytes);
      this.admins := admins;
      this.users := users;
      adminToken := new TokenService();
      this.nonce := nonce;
      tokens := map[];
      minted := map[];
    }

    /** Every live token's candidate is a candidate of the poll. */
    lemma BallotsInRange()
      requires Valid()
      ensures forall c :: c in Ballots(minted) ==> 1 <= c <= |poll.votes|
    {
      forall u, i | u in minted && 0 <= i < |minted[u]|
        ensures 1 <= minted[u][i].choice <= |poll.votes|
      {
        assert LiveList(tokens[u], minted[u], u, nonce, poll.key, |poll.votes|);
        assert LiveToken(tokens[u][i], minted[u][i], u, nonce, poll.key, |poll.votes|);
      }
      BallotsWithin(minted, minted.Keys, |poll.votes|);
    }

    /**
     * Tally conservation: while a poll is open the tallies add up to the
     * number of live tokens and none is negative.
     */
    lemma TallyMatchesTokens()
      requires Valid() && isPresent
      ensures Sum(poll.votes) == |Ballots(minted)| == Stored(tokens)
      ensures forall i :: 0 <= i < |poll.votes| ==> poll.votes[i] >= 0
    {
      BallotsInRange();
      SumCounts(poll.votes, Ballots(minted));
      BallotsCount(tokens, minted, nonce, poll.key, |poll.votes|);
    }

    /** Withdraws `u`'s token `t`, stored at position `i` and decrypting to `vote`: one decrement and `remove_token`. */
    method Revoke(u: UserId, t: PollToken, vote: int, ghost i: nat)
      requires Valid() && isPresent
      requires i < |Held(u)| && i < |Mints(u)| && Held(u)[i] == t
      requires vote == Mints(u)[i].choice
      requires forall j :: 0 <= j < i ==>
                 !SameSession(Mints(u)[i].session, Mints(u)[j].session) || Mints(u)[j].choice != vote
      modifies this`poll, this`tokens, this`minted
      ensures Valid() && isPresent
      ensures tokens == old(tokens)[u := RemoveAt(old(Held(u)), i)]
      ensures minted == old(minted)[u := RemoveAt(old(Mints(u)), i)]
      ensures 1 <= vote <= |old(poll.votes)|
      ensures poll == old(poll).(votes := Shift(old(poll.votes), vote, -1))
    {
      RevokeTarget(poll, nonce, tokens, minted, u, i);
      poll := poll.(votes := Shift(poll.votes, vote, -1));
      minted := minted[u := RemoveAt(minted[u], i)];
      tokens := tokens[u := RemoveToken(tokens[u], t.token)];
      RevokeKeeps(old(poll), nonce, old(tokens), old(minted), u, i, poll, tokens, minted);
    }

    /** Stores a new token for `target` in session `key`: one increment and `insert_token`. */
    method Record(u: UserId, target: int, key: string)
      requires Valid() && isPresent
      requires WellFormedHalfKey(key) && 1 <= target <= |poll.votes| && InI64(target)
      requires |Held(u)| < Capacity
      modifies this`poll, this`tokens, this`minted
      ensures Valid() && isPresent
      ensures tokens == old(tokens)[u := old(Held(u)) + [Ballot(u, target, key)]]
      ensures minted == old(minted)[u := old(Mints(u)) + [Mint(target, key)]]
      ensures poll == old(poll).(votes := Shift(old(poll.votes), target, 1))
    {
      var t := New(nonce, poll.key, key, target, u, 0);
      poll := poll.(votes := Shift(poll.votes, target, 1));
      minted := minted[u := Lookup(minted, u) + [Mint(target, key)]];
      tokens := tokens[u := Held(u) + [t]];
      RecordKeeps(old(poll), nonce, old(tokens), old(minted), u, Mint(target, key), poll, tokens, minted);
    }

    /**
     * `/create <candidates...> <minutes>`: checks, in order, that there is
     * a parameter, that the caller is an admin, that the last parameter is
     * an i64, that a candidate remains, that the duration is positive and
     * that no poll is open; then opens a poll closing `minutes` minutes
     * after the second clock reading.
     */
    method CreatePoll(caller: UserId, words: seq<string>, keyBytes: seq<byte>, startClock: int, endClock: int)
      returns (reply: Reply)
      requires Valid()
      requires |keyBytes| == HalfKeyLen
      modifies this`isPresent, this`poll
      ensures Valid()
      ensures |words| <= 1 ==> reply == UnknownCommand
      ensures |words| >= 2 && caller !in admins ==> reply == AdminOnly
      ensures |words| >= 2 && caller in admins && ParseI64(words[|words| - 1]).None? ==> reply == UnknownCommand
      ensures |words| >= 2 && caller in admins && ParseI64(words[|words| - 1]).Some? ==>
                var minutes := ParseI64(words[|words| - 1]).value;
                reply == (if |words| == 2 then NeedCandidates
                          else if minutes <= 0 then NeedOneMinute
                          else if old(isPresent) then AlreadyOpen
                          else PollOpened)
      ensures reply != PollOpened ==> isPresent == old(isPresent) && poll == old(poll)
      ensures reply == PollOpened ==>
                && isPresent
                && poll == NewPoll(words[1..|words| - 1], startClock,
                                   endClock + ParseI64(words[|words| - 1]).value * 60, keyBytes)
    {
      if |words| <= 1 {
        return UnknownCommand;
      }
      if caller !in admins {
        return AdminOnly;
      }
      var candidates := words[1..|words| - 1];
      var times := ParseI64(words[|words| - 1]);
      if times.None? {
        return UnknownCommand;
      }
      if |candidates| == 0 {
        return NeedCandidates;
      }
      if times.value <= 0 {
        return NeedOneMinute;
      }
      if isPresent {
        return AlreadyOpen;
      }
      isPresent := true;
      poll := NewPoll(candidates, startClock, endClock + times.value * 60, keyBytes);
      reply := PollOpened;
    }

    /**
     * `/remove`: an admin closes the open poll. The reply ranks every
     * candidate; the stored tokens are dropped with the database rows and
     * the poll itself is left as it was.
     */
    method ClosePoll(caller: UserId) returns (reply: Reply)
      requires Valid()
      modifies this`isPresent, this`tokens, this`minted
      ensures Valid()
      ensures caller !in admins ==> reply == AdminOnly
      ensures caller in admins && !old(isPresent) ==> reply == NotOpen
      ensures !reply.PollClosed? ==> isPresent == old(isPresent) && tokens == old(tokens) && minted == old(minted)
      ensures reply.PollClosed? <==> caller in admins && old(isPresent)
      ensures reply.PollClosed? ==>
                && !isPresent && tokens == map[]
                && reply.ranking == Ranking(poll.votes)
                && |reply.ranking| == |poll.candidates|
    {
      if caller !in admins {
        return AdminOnly;
      }
      if !isPresent {
        return NotOpen;
      }
      isPresent := false;
      var ranking := Rank(poll.votes);
      tokens := map[];
      minted := map[];
      reply := PollClosed(ranking);
    }

    /**
     * Whether the vote callback runs without panicking: the session key
     * half must fit whenever a token is decrypted, and must make a key when
     * a new token is made, for a target that indexes the tallies.
     */
    ghost predicate VoteDefined(caller: UserId, targetText: string, key: string)
      reads this
    {
      ParseI64(targetText).Some? && isPresent && caller in users ==>
        && (Held(caller) != [] ==> SessionKeyFits(key))
        && (AllOk(Pending(caller, key)) && FirstIndexOf(Pending(caller, key), ParseI64(targetText).value) == |Mints(caller)|
            ==> WellFormedHalfKey(key) && 1 <= ParseI64(targetText).value <= |poll.votes|)
    }

    /**
     * The cast branch of the vote callback, on a list whose tokens all
     * belong to session `key`: when the caller holds Capacity tokens the
     * oldest is withdrawn first, then a token for `target` is stored.
     */
    method Cast(u: UserId, target: int, key: string)
      requires Valid() && isPresent
      requires WellFormedHalfKey(key) && 1 <= target <= |poll.votes| && InI64(target)
      requires AllOk(Pending(u, key))
      modifies this`poll, this`tokens, this`minted
      ensures Valid() && isPresent
      ensures |old(Mints(u))| == |old(Held(u))| <= Capacity
      ensures tokens == old(tokens)[u := (if |old(Held(u))| == Capacity then old(Held(u))[1..] else old(Held(u))) + [Ballot(u, target, key)]]
      ensures |poll.votes| == |old(poll.votes)|
      ensures |old(Held(u))| == Capacity ==> 1 <= old(Mints(u))[0].choice <= |old(poll.votes)|
      ensures poll.votes == if |old(Held(u))| == Capacity
                            then Shift(Shift(old(poll.votes), old(Mints(u))[0].choice, -1), target, 1)
                            else Shift(old(poll.votes), target, 1)
      ensures poll == old(poll).(votes := poll.votes)
    {
      var list := Held(u);
      assert LiveList(list, Mints(u), u, nonce, poll.key, |poll.votes|);
      if |list| == Capacity {
        Evict(u, key);
      }
      Record(u, target, key);
    }

    /**
     * The eviction before a cast when the caller holds Capacity tokens, all
     * of session `key`: the first token that decrypts, which is the oldest,
     * is withdrawn.
     */
    method Evict(u: UserId, key: string)
      requires Valid() && isPresent
      requires WellFormedHalfKey(key)
      requires |Held(u)| == Capacity && AllOk(Pending(u, key))
      modifies this`poll, this`tokens, this`minted
      ensures Valid() && isPresent
      ensures |old(Mints(u))| == Capacity && 1 <= old(Mints(u))[0].choice <= |old(poll.votes)|
      ensures tokens == old(tokens)[u := old(Held(u))[1..]]
      ensures poll == old(poll).(votes := Shift(old(poll.votes), old(Mints(u))[0].choice, -1))
    {
      var list := Held(u);
      ghost var mints := Mints(u);
      assert LiveList(list, mints, u, nonce, poll.key, |poll.votes|);
      DecodeLiveList(list, mints, u, nonce, poll.key, |poll.votes|, key);
      var first, vote := FirstDecodable(list, nonce, poll.key, key);
      assert Pending(u, key)[0].Ok?;
      assert first == 0;
      Revoke(u, list[first], vote, first);
      assert RemoveAt(list, 0) == list[1..];
    }

    /**
     * A press on a candidate button of the menu of session `key`. Nothing
     * changes unless the target parses, a poll is open, the caller may vote
     * and every token of theirs belongs to this session. Then a token for
     * the target is withdrawn if there is one (toggle), and otherwise one is
     * cast, first withdrawing the oldest token when the caller holds
     * Capacity of them.
     */
    method VoteCallback(caller: UserId, targetText: string, key: string) returns (reply: Reply)
      requires Valid()
      requires VoteDefined(caller, targetText, key)
      modifies this`poll, this`tokens, this`minted
      ensures Valid()
      ensures isPresent == old(isPresent)
      ensures poll == old(poll).(votes := poll.votes)
      ensures reply == (if ParseI64(targetText).None? then Ignored
                        else if !old(isPresent) then NotOpen
                        else if caller !in old(users) then NotAllowed
                        else if !AllOk(old(Pending(caller, key))) then RetryFromMenu
                        else if FirstIndexOf(old(Pending(caller, key)), ParseI64(targetText).value) < |old(Held(caller))| then VoteCancelled
                        else VoteCast)
      ensures reply != VoteCancelled && reply != VoteCast ==>
                tokens == old(tokens) && minted == old(minted) && poll == old(poll)
      ensures reply == VoteCancelled || reply == VoteCast ==>
                && 1 <= ParseI64(targetText).value <= |old(poll.votes)|
                && |old(Mints(caller))| == |old(Held(caller))| <= Capacity
      ensures reply == VoteCancelled ==>
                var target := ParseI64(targetText).value;
                && tokens == old(tokens)[caller := RemoveAt(old(Held(caller)), FirstIndexOf(old(Pending(caller, key)), target))]
                && poll.votes == Shift(old(poll.votes), target, -1)
      ensures reply == VoteCast ==> WellFormedHalfKey(key)
      ensures reply == VoteCast && |old(Held(caller))| == Capacity ==>
                1 <= old(Mints(caller))[0].choice <= |old(poll.votes)|
      ensures reply == VoteCast ==>
                var target := ParseI64(targetText).value;
                var list := old(Held(caller));
                var votes := old(poll.votes);
                var evicted := if |list| == Capacity then Shift(votes, old(Mints(caller))[0].choice, -1) else votes;
                && tokens == old(tokens)[caller := (if |list| == Capacity then list[1..] else list) + [Ballot(caller, target, key)]]
                && poll.votes == Shift(evicted, target, 1)
    {
      var parsed := ParseI64(targetText);
      if parsed.None? {
        return Ignored;
      }
      var target := parsed.value;
      if !isPresent {
        return NotOpen;
      }
      if caller !in users {
        return NotAllowed;
      }
      reply := Toggle(caller, target, key);
    }

    /**
     * The vote callback once the caller is known to be a voter of the open
     * poll: a menu whose tokens do not all belong to session `key` is
     * refused, a vote already held for `target` is withdrawn, any other
     * vote is cast.
     */
    method Toggle(caller: UserId, target: int, key: string) returns (reply: Reply)
      requires Valid() && isPresent && caller in users && InI64(target)
      requires Held(caller) != [] ==> SessionKeyFits(key)
      requires AllOk(Pending(caller, key)) && FirstIndexOf(Pending(caller, key), target) == |Mints(caller)| ==>
                 WellFormedHalfKey(key) && 1 <= target <= |poll.votes|
      modifies this`poll, this`tokens, this`minted
      ensures Valid() && isPresent
      ensures poll == old(poll).(votes := poll.votes)
      ensures reply == (if !AllOk(old(Pending(caller, key))) then RetryFromMenu
                        else if FirstIndexOf(old(Pending(caller, key)), target) < |old(Held(caller))| then VoteCancelled
                        else VoteCast)
      ensures reply == RetryFromMenu ==> tokens == old(tokens) && minted == old(minted) && poll == old(poll)
      ensures reply != RetryFromMenu ==>
                && 1 <= target <= |old(poll.votes)|
                && |old(Mints(caller))| == |old(Held(caller))| <= Capacity
      ensures reply == VoteCancelled ==>
                && tokens == old(tokens)[caller := RemoveAt(old(Held(caller)), FirstIndexOf(old(Pending(caller, key)), target))]
                && poll.votes == Shift(old(poll.votes), target, -1)
      ensures reply == VoteCast ==> WellFormedHalfKey(key)
      ensures reply == VoteCast && |old(Held(caller))| == Capacity ==>
                1 <= old(Mints(caller))[0].choice <= |old(poll.votes)|
      ensures reply == VoteCast ==>
                var list := old(Held(caller));
                var votes := old(poll.votes);
                var evicted := if |list| == Capacity then Shift(votes, old(Mints(caller))[0].choice, -1) else votes;
                && tokens == old(tokens)[caller := (if |list| == Capacity then list[1..] else list) + [Ballot(caller, target, key)]]
                && poll.votes == Shift(evicted, target, 1)
    {
      var list := Held(caller);
      ghost var mints := Mints(caller);
      assert LiveList(list, mints, caller, nonce, poll.key, |poll.votes|);
      DecodeLiveList(list, mints, caller, nonce, poll.key, |poll.votes|, key);
      var cnt := CountDecodable(list, nonce, poll.key, key);
      CountOkAll(DecodeAll(list, nonce, poll.key, key));
      if cnt != |list| {
        return RetryFromMenu;
      }
      var i := FindVote(list, nonce, poll.key, key, target);
      if i < |list| {
        Revoke(caller, list[i], target, i);
        return VoteCancelled;
      }
      Cast(caller, target, key);
      reply := VoteCast;
    }

    /**
     * The clear button of the menu of session `key`: every token of the
     * caller that decrypts under `key` is withdrawn and its tally
     * decremented; the caller's other tokens and everyone else's stay.
     */
    method ClearCallback(caller: UserId, key: string) returns (reply: Reply)
      requires Valid()
      requires isPresent && caller in users && Held(caller) != [] ==> SessionKeyFits(key)
      modifies this`poll, this`tokens, this`minted
      ensures Valid()
      ensures isPresent == old(isPresent)
      ensures reply == (if !old(isPresent) then NotOpen else if caller !in old(users) then NotAllowed else Cleared)
      ensures reply != Cleared ==> tokens == old(tokens) && minted == old(minted) && poll == old(poll)
      ensures reply == Cleared ==>
                && |old(Mints(caller))| == |old(Held(caller))|
                && tokens == (if caller in old(tokens) then old(tokens)[caller := Keep(old(Held(caller)), old(Pending(caller, key)))]
                              else old(tokens))
                && poll == old(poll).(votes := Untally(old(poll.votes), old(Pending(caller, key))))
    {
      if !isPresent {
        return NotOpen;
      }
      if caller !in users {
        return NotAllowed;
      }
      reply := Cleared;
      if caller in tokens {
        WithdrawSession(caller, key);
      } else {
        assert Mints(caller) == [];
      }
    }

    /**
     * The loop of the clear callback over the caller's stored list: each
     * token that decrypts under `key` is withdrawn and its tally
     * decremented; the others stay, in order.
     */
    method WithdrawSession(caller: UserId, key: string)
      requires Valid() && isPresent
      requires caller in tokens && (Held(caller) != [] ==> SessionKeyFits(key))
      modifies this`poll, this`tokens, this`minted
      ensures Valid() && isPresent
      ensures |old(Mints(caller))| == |old(Held(caller))|
      ensures tokens == old(tokens)[caller := Keep(old(Held(caller)), old(Pending(caller, key)))]
      ensures minted == old(minted)[caller := Keep(old(Mints(caller)), old(Pending(caller, key)))]
      ensures poll == old(poll).(votes := Untally(old(poll.votes), old(Pending(caller, key))))
    {
      var list := tokens[caller];
      ghost var mints := minted[caller];
      ghost var n := |poll.votes|;
      ghost var ds := Pending(caller, key);
      assert LiveList(list, mints, caller, nonce, poll.key, n);
      DecodeLiveList(list, mints, caller, nonce, poll.key, n, key);
      KeepEnds(list, ds);
      KeepEnds(mints, ds);
      UpdateSame(tokens, caller);
      UpdateSame(minted, caller);
      assert ds[..0] == [];
      ghost var tokens0, minted0, poll0 := tokens, minted, poll;
      assert ClearProgress(caller, list, mints, ds, tokens0, minted0, poll0, 0);
      WithdrawLoop(caller, key, list, mints, ds, tokens0, minted0, poll0);
      assert ds[..|list|] == ds;
    }

    /**
     * The state of the clear loop after its first `k` positions: the
     * caller's list, filtered up to `k`, and the tallies, decremented up to `k`.
     */
    ghost predicate ClearProgress(caller: UserId, list: seq<PollToken>, mints: seq<Mint>, ds: seq<Result<int>>,
                                  tokens0: map<UserId, seq<PollToken>>, minted0: map<UserId, seq<Mint>>,
                                  poll0: PollService, k: nat)
      reads this
    {
      && k <= |list| == |mints| == |ds|
      && poll == poll0.(votes := Untally(poll0.votes, ds[..k]))
      && tokens == tokens0[caller := Keep(list[..k], ds[..k]) + list[k..]]
      && minted == minted0[caller := Keep(mints[..k], ds[..k]) + mints[k..]]
    }

    /** The clear loop proper, over the caller's original list. */
    method WithdrawLoop(caller: UserId, key: string, list: seq<PollToken>, ghost mints: seq<Mint>, ghost ds: seq<Result<int>>,
                        ghost tokens0: map<UserId, seq<PollToken>>, ghost minted0: map<UserId, seq<Mint>>,
                        ghost poll0: PollService)
      requires Valid() && isPresent
      requires LiveList(list, mints, caller, nonce, poll0.key, |poll0.votes|)
      requires AllDefined(list, nonce, poll0.key, key) && DecodeAll(list, nonce, poll0.key, key) == ds
      requires ds == Expected(mints, key)
      requires ClearProgress(caller, list, mints, ds, tokens0, minted0, poll0, 0)
      modifies this`poll, this`tokens, this`minted
      ensures Valid() && isPresent
      ensures ClearProgress(caller, list, mints, ds, tokens0, minted0, poll0, |list|)
    {
      for k := 0 to |list|
        invariant Valid() && isPresent
        invariant ClearProgress(caller, list, mints, ds, tokens0, minted0, poll0, k)
      {
        WithdrawStep(caller, key, list, mints, ds, tokens0, minted0, poll0, k);
      }
    }

    /** One pass of the clear loop, at position `k` of the caller's original list. */
    method WithdrawStep(caller: UserId, key: string, list: seq<PollToken>, ghost mints: seq<Mint>, ghost ds: seq<Result<int>>,
                        ghost tokens0: map<UserId, seq<PollToken>>, ghost minted0: map<UserId, seq<Mint>>,
                        ghost poll0: PollService, k: nat)
      requires Valid() && isPresent
      requires k < |list|
      requires LiveList(list, mints, caller, nonce, poll0.key, |poll0.votes|)
      requires AllDefined(list, nonce, poll0.key, key) && DecodeAll(list, nonce, poll0.key, key) == ds
      requires ds == Expected(mints, key)
      requires ClearProgress(caller, list, mints, ds, tokens0, minted0, poll0, k)
      modifies this`poll, this`tokens, this`minted
      ensures Valid() && isPresent
      ensures ClearProgress(caller, list, mints, ds, tokens0, minted0, poll0, k + 1)
    {
      var r := Decrypt(list[k], nonce, poll.key, key);
      assert r == ds[k];
      KeepStep(list, ds, k);
      KeepStep(mints, ds, k);
      UntallyStep(poll0.votes, ds, k);
      if r.Ok? {
        ghost var kept := Keep(mints[..k], ds[..k]);
        ghost var keptList := Keep(list[..k], ds[..k]);
        assert |keptList| == |kept|;
        ExpectedPrefix(mints, key, k);
        KeepOtherSessions(mints[..k], key);
        LiveChoice(list, mints, caller, nonce, poll0.key, |poll0.votes|, k);
        Revoke(caller, list[k], r.value, |kept|);
        UpdateTwice(tokens0, caller, keptList + list[k..], RemoveAt(keptList + list[k..], |kept|));
        UpdateTwice(minted0, caller, kept + mints[k..], RemoveAt(kept + mints[k..], |kept|));
      }
    }

    /** The check button: read-only; reports the caller's candidates in session `key`, in storage order. */
    method CheckCallback(caller: UserId, key: string) returns (reply: Reply)
      requires Valid()
      requires isPresent && caller in users && Held(caller) != [] ==> SessionKeyFits(key)
      ensures reply == (if !isPresent then NotOpen
                        else if caller !in old(users) then NotAllowed
                        else Report(SessionChoices(Mints(caller), key)))
      ensures reply.Report? ==> forall j :: 0 <= j < |reply.mine| ==> 1 <= reply.mine[j] <= |poll.candidates|
    {
      if !isPresent {
        return NotOpen;
      }
      if caller !in users {
        return NotAllowed;
      }
      var list := Held(caller);
      ghost var mints := Mints(caller);
      assert LiveList(list, mints, caller, nonce, poll.key, |poll.votes|);
      DecodeLiveList(list, mints, caller, nonce, poll.key, |poll.votes|, key);
      var mine := CollectDecoded(list, nonce, poll.key, key);
      OkValuesLive(mints, key);
      forall i | 0 <= i < |mints|
        ensures 1 <= mints[i].choice <= |poll.candidates|
      {
        assert LiveToken(list[i], mints[i], caller, nonce, poll.key, |poll.votes|);
      }
      SessionChoicesWithin(mints, key, |poll.candidates|);
      reply := Report(mine);
    }

    /** `/accept`: registers the caller as a voter when asked from the group chat. */
    method Register(caller: UserId, fromGroupChat: bool) returns (reply: Reply)
      modifies this`users
      ensures reply == (if caller in old(users) then AlreadyRegistered
                        else if fromGroupChat then Registered
                        else NoPermission)
      ensures users == if reply == Registered then old(users) + {caller} else old(users)
    {
      if caller in users {
        return AlreadyRegistered;
      }
      if !fromGroupChat {
        return NoPermission;
      }
      users := users + {caller};
      reply := Registered;
    }

    /** `/add_admin`: an admin in a private chat gets a fresh invite code. */
    method AddAdmin(caller: UserId, privateChat: bool, digests: seq<seq<byte>>) returns (reply: Reply)
      requires privateChat && caller in admins ==>
                 && (forall i :: 0 <= i < |digests| ==> |digests[i]| == DigestLen)
                 && (exists i :: 0 <= i < |digests| && Hex.Encode(digests[i]) !in adminToken.tokens)
      modifies adminToken
      ensures !privateChat ==> reply == PrivateChatOnly
      ensures privateChat && caller !in admins ==> reply == AdminOnly
      ensures !reply.Invite? ==> adminToken.tokens == old(adminToken.tokens)
      ensures reply.Invite? <==> privateChat && caller in admins
      ensures reply.Invite? ==>
                && reply.code !in old(adminToken.tokens)
                && adminToken.tokens == old(adminToken.tokens) + {reply.code}
    {
      if !privateChat {
        return PrivateChatOnly;
      }
      if caller !in admins {
        return AdminOnly;
      }
      var code := adminToken.Gen(digests);
      reply := Invite(code);
    }

    /**
     * `/accept_admin <code>`: exactly one parameter; a caller who is not yet
     * an admin spends the code and becomes one when it was outstanding.
     */
    method AcceptAdmin(caller: UserId, words: seq<string>) returns (reply: Reply)
      modifies this`admins, adminToken
      ensures reply == (if |words| != 2 then UnknownCommand
                        else if caller in old(admins) then AlreadyRegistered
                        else if words[1] in old(adminToken.tokens) then AdminAdded
                        else InvalidToken)
      ensures reply == AdminAdded || reply == InvalidToken ==>
                adminToken.tokens == old(adminToken.tokens) - {words[1]}
      ensures reply != AdminAdded && reply != InvalidToken ==> adminToken.tokens == old(adminToken.tokens)
      ensures admins == if reply == AdminAdded then old(admins) + {caller} else old(admins)
    {
      if |words| != 2 {
        return UnknownCommand;
      }
      if caller in admins {
        return AlreadyRegistered;
      }
      var removed := adminToken.Remove(words[1]);
      if removed {
        admins := admins + {caller};
        reply := AdminAdded;
      } else {
        reply := InvalidToken;
      }
    }
  }
}
