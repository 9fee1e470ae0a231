# vote-bot core in Dafny

This project models the logic of a chat election bot (f6queer/vote-bot) underneath its chat handlers. There are three parts.

- **The poll and its vote ledger** (`src/bot.rs`, module `BotState`, with the pure definitions in `Ledger` and `PollRanking`).
  - The bot is an open/closed flag, the current poll and a tally vector with one entry per candidate.
  - Each voter has an ordered list of vote tokens.
  - An admin opens a poll and closes it; closing publishes a ranking.
  - A voter presses buttons on a menu that carries a fresh *session key half*:
    - a vote button either withdraws the vote the voter already holds for that candidate, or casts one;
    - a voter holds at most three tokens, so a cast at three first withdraws the oldest;
    - the clear button withdraws every vote of that menu;
    - the check button lists them.
  - Voters register by sending `/accept` in the group chat; no code is involved.
  - Admins are admitted by redeeming a one-time invitation code that an existing admin requested.
- **The vote-token codec** (`src/poll_token.rs`, module `PollTokens`, with `Hex`, `Decimal` and `Aead`).
  - A vote is the decimal text of the candidate number, sealed with AES-256-GCM-SIV.
  - The cipher key is the poll's key half followed by the session key half.
  - The nonce is the configured nonce string, zero-padded to 12 bytes.
  - The token is the hex text of the ciphertext.
  - Decryption fails, without panicking, on a non-hex session key, a failed authentication, a non-text plaintext or a non-integer text.
- **The invitation-code issuer** (`src/token_service.rs`, module `TokenServices`).
  - It is a set of outstanding codes.
  - Each code is the hex text of a SHA3-256 digest of 32 random bytes.
  - Issuing a code fails on a collision, and redeeming a code is a check-and-remove, so each code is single-use.

The store of `src/bot.rs` is modelled as a map from voter to an ordered sequence of tokens, with `remove_token` removing the first entry that has the given ciphertext. This is how `bot.rs` uses the store.

The model keeps a ghost map `minted` alongside the store. It records the candidate and session key half each live token was made from. The class invariant `Bot.Valid` (through `Consistent`) says:
- the nonce string is at most 12 bytes;
- there is one tally per candidate;
- the poll key half is the hex text of 16 bytes;
- the store and `minted` have the same voters, and each voter's list is as long as their record list;
- every stored token is exactly what `PollToken::new` makes from its record, with a 16-byte hex session key half and a candidate number between 1 and the number of candidates;
- a voter holds at most three tokens;
- while a poll is open, each tally counts the live tokens for its candidate;
- a closed poll has no tokens.

Every handler preserves `Valid`. `Bot.TallyMatchesTokens` derives tally conservation from it: the tallies sum to the number of stored tokens, and none is negative.

Where the code panics (`unwrap` on bad hex, `from_slice` on a key of the wrong length, the nonce-length `assert_eq!`, an out-of-range index), the model has a precondition that says exactly that, and the outcomes it therefore does not describe are listed under "Left out". Examples are `Bot.VoteDefined`, `PollTokens.DecryptDefined` and the requires of `PollTokens.New`.

Three behaviours of the code are worth spelling out:
- **Ties in the ranking.** The code sorts `(tally, index)` pairs ascending and reverses them, so among equal tallies the larger index comes first. For tallies `[5, 9, 9]` the third candidate is therefore ranked ahead of the second (`PollRanking.TieExample`).
- **Truncation.** The published ranking lists every candidate. The `min` that would truncate it is commented out in `src/bot.rs:95`.
- **Closing.** Closing clears the database, which holds the tokens, but leaves the in-memory poll and its tallies as they were.

## Model

| member | source | states |
|---|---|---|
| Hex.Encode | src/poll_token.rs:38 | `hex::encode` writes two lower-case hex digits per byte |
| Hex.Decode | src/poll_token.rs:45-47 | `hex::decode` rejects odd-length text; on success it yields half as many bytes as characters |
| Hex.DecodeEncode | src/poll_token.rs:38-57 | decoding the hex text `new` stores gives back exactly the ciphertext bytes |
| Decimal.ToDecimal | src/poll_token.rs:34 | `i64::to_string` is non-empty and starts with '-' exactly for negative numbers |
| Decimal.ParseI64 | src/poll_token.rs:60 | `parse::<i64>` succeeds only with a value in the i64 range and only on text containing a digit |
| Decimal.DigitsValueOfDigits | src/poll_token.rs:34-60 | the digits written for a natural number read back as that number |
| Decimal.ParseToDecimal | src/poll_token.rs:34-61 | rendering an i64 in decimal and parsing it back gives the same number |
| Aead.OpenSeal | src/poll_token.rs:33-58 | opening with the sealing key and nonce gives back the plaintext (the cipher's round trip) |
| Aead.OpenSealOtherKey | src/poll_token.rs:55-58 | opening with a different key of the same length fails authentication |
| PollTokens.Nonce | src/poll_token.rs:29-32 | the nonce is NONCE_LEN bytes: the nonce string's bytes followed by zero bytes |
| PollTokens.AsciiText | src/poll_token.rs:59 | text conversion succeeds only with ASCII text of the same length as the bytes |
| PollTokens.New | src/poll_token.rs:15-42 | `new` keeps the user and message ids unchanged and stores lower-case hex text; it requires hex key halves, a 32-byte key, a short nonce string and an i64 |
| PollTokens.Decrypt | src/poll_token.rs:44-74 | `decrypt` fails on a non-hex session key half and on failed authentication; a success is the i64 parsed from the plaintext read as text, so a non-text plaintext or a non-integer text fails |
| PollTokens.CipherKeyOfEncoded | src/poll_token.rs:24-28 | the cipher key is the poll key half's bytes followed by the session key half's bytes |
| PollTokens.TokenCiphertext | src/poll_token.rs:30-38 | the stored token is `hex::encode` of the sealed decimal rendering of `num`, and decodes back to it |
| PollTokens.PlaintextParses | src/poll_token.rs:59-61 | the decimal plaintext converts to text and parses back to `num` |
| PollTokens.DecryptNew | src/poll_token.rs:44-74 | a token made by `new` decrypts to its number under a session key half with the same bytes, and to `Err` under any other |
| PollTokens.RoundTrip | src/poll_token.rs:15-74 | `decrypt` with the nonce string and key halves a token was made with returns `Ok(num)` |
| TokenServices.Issue | src/token_service.rs:26-39 | one `_gen` attempt succeeds exactly when the code is not outstanding; then the set grows by that code alone; otherwise nothing changes |
| TokenServices.Redeem | src/token_service.rs:41-48 | `remove` returns true exactly when the code was outstanding; afterwards the set lacks that code and nothing else |
| TokenServices.RedeemOnce | src/token_service.rs:41-48 | a second `remove` of the same code returns false and changes nothing |
| TokenServices.IssueThenRedeem | src/token_service.rs:26-48 | a freshly issued code is redeemed once, and redeeming it restores the earlier set |
| TokenServices.TokenService.constructor | src/token_service.rs:12-16 | a new service has no outstanding codes |
| TokenServices.TokenService.TryGen | src/token_service.rs:26-39 | `_gen` with a given digest behaves as `Issue` on its hex text; a code is 64 hex characters |
| TokenServices.TokenService.Gen | src/token_service.rs:18-24 | `gen` returns a code that was not outstanding, adds exactly that code, and the code is 64 characters |
| TokenServices.TokenService.Remove | src/token_service.rs:41-48 | `remove` behaves as `Redeem`: an atomic check-and-remove |
| PollRanking.Sort | src/bot.rs:93 | `sort` on the pairs is a permutation into ascending tuple order |
| PollRanking.Reverse | src/bot.rs:94 | `reverse` puts position `i` at position `n - 1 - i` |
| PollRanking.RankingPlaces | src/bot.rs:89-94 | the ranking is a permutation of the pairs: every place is a candidate with its own tally |
| PollRanking.RankingDistinct | src/bot.rs:89-104 | no candidate is listed twice, so all candidates are listed |
| PollRanking.RankingOrder | src/bot.rs:93-94 | the highest tally comes first; among equal tallies the larger index comes first |
| PollRanking.Rank | src/bot.rs:89-104 | the push loop, then sort and reverse, yields the ranking: every candidate once, in that order |
| PollRanking.TieExample | src/bot.rs:89-94 | tallies [5, 9, 9] rank the third candidate, then the second, then the first |
| Ledger.DecodeLive | src/poll_token.rs:44-74 | a live token decrypts to its candidate under its own session and to `Err` under any other |
| Ledger.Expected | src/bot.rs:409-418 | position `i` of a voter's decryptions succeeds exactly when `key` is that token's session, with its candidate |
| Ledger.DecodeLiveList | src/bot.rs:409-418 | decrypting a voter's stored list under `key` never panics and gives exactly `Expected` |
| Ledger.TokensDiffer | src/bot.rs:432 | two live tokens of one voter from different votes have different ciphertexts |
| Ledger.LiveChoice | src/bot.rs:428 | every live token's candidate indexes the tallies |
| Ledger.CountOkAll | src/bot.rs:408-419 | `cnt == list.len()` exactly when every token decrypts |
| Ledger.FirstIndexOf | src/bot.rs:420-437 | the toggle loop stops at the first token decrypting to `target`, or finds none |
| Ledger.Keep | src/bot.rs:372-384 | the clear loop keeps exactly the tokens that did not decrypt |
| Ledger.UntallyCount | src/bot.rs:372-384 | after the clear loop each tally has dropped by the number of withdrawn tokens for that candidate |
| Ledger.UntallyStep | src/bot.rs:373-378 | one pass of the clear loop decrements a tally exactly when its token decrypts |
| Ledger.KeepStep | src/bot.rs:373-382 | one pass of the clear loop drops its token when it decrypts and keeps it otherwise |
| Ledger.KeepOtherSessions | src/bot.rs:372-384 | after a clear, none of the caller's remaining tokens belongs to that session |
| Ledger.RemoveTokenAt | src/bot.rs:432 | removing by ciphertext removes the first entry holding that ciphertext |
| Ledger.RemoveLiveToken | src/bot.rs:432 | removing a live token by ciphertext removes it at its own position and keeps the list live |
| Ledger.OkValuesLive | src/bot.rs:331-344 | what the check loop collects is the voter's candidates of that session, in storage order |
| Ledger.SessionChoicesWithin | src/bot.rs:337-341 | every candidate the check callback reports indexes the candidate list |
| Ledger.BallotsUpdate | src/bot.rs:378-382 | replacing one voter's list swaps exactly that voter's candidates in the ballots |
| Ledger.BallotsRemove | src/bot.rs:428-432 | withdrawing one token takes its candidate out of the ballots once |
| Ledger.BallotsAppend | src/bot.rs:461-473 | storing one token adds its candidate to the ballots once |
| Ledger.BallotsCount | src/bot.rs:428-473 | a live store has exactly one ballot per stored token |
| Ledger.SumCounts | src/bot.rs:428-473 | tallies that count the ballots per candidate sum to the number of ballots |
| Ledger.CountsRemove | src/bot.rs:428-432 | a decrement paired with the removal of a token for that candidate keeps every tally counting |
| Ledger.CountsAppend | src/bot.rs:461-473 | an increment paired with the insertion of a token for that candidate keeps every tally counting |
| BotState.NewPoll | src/bot.rs:28-38 | `PollService::new` keeps the candidates and times, has one zero tally per candidate, and a key half that is hex of 16 bytes |
| BotState.CountDecodable | src/bot.rs:408-418 | the `cnt` loop counts the tokens that decrypt |
| BotState.FindVote | src/bot.rs:420-437 | the toggle loop returns the first position decrypting to `target` |
| BotState.FirstDecodable | src/bot.rs:443-459 | the eviction loop returns the first position that decrypts, and its candidate |
| BotState.CollectDecoded | src/bot.rs:328-344 | the check loop collects the decrypted candidates in storage order |
| BotState.RevokeTarget | src/bot.rs:428-432 | the token being withdrawn names a candidate, and `remove_token` removes it at its own position |
| BotState.RevokeKeeps | src/bot.rs:428-432 | withdrawing a token and decrementing its candidate keeps the ledger consistent |
| BotState.RecordKeeps | src/bot.rs:461-473 | storing a new token and incrementing its candidate keeps the ledger consistent |
| BotState.Bot.constructor | src/bot.rs:53-75 | the bot starts with no poll open and no tokens, and with an empty admin-code set |
| BotState.Bot.BallotsInRange | src/bot.rs:378 | every live token's candidate is a candidate of the poll, so `votes[vote - 1]` never panics |
| BotState.Bot.TallyMatchesTokens | src/bot.rs:378-473 | while a poll is open, the tallies sum to the number of stored tokens and none is negative |
| BotState.Bot.Revoke | src/bot.rs:428-432 | one withdrawal: the token leaves the caller's list at its position; only its candidate's tally drops, by one |
| BotState.Bot.Record | src/bot.rs:461-473 | one cast: `target`'s tally rises by one, and exactly one new token for it is appended |
| BotState.Bot.CreatePoll | src/bot.rs:125-197 | each rejection in source order, with no state change; on success the poll is open and `end = now + minutes * 60` |
| BotState.Bot.ClosePoll | src/bot.rs:78-122 | only an admin with a poll open closes it; the reply ranks all candidates; the tokens are dropped; otherwise nothing changes |
| BotState.Bot.Cast | src/bot.rs:442-473 | at capacity the oldest token is withdrawn first; then one token for `target` is stored; the voter still holds at most three |
| BotState.Bot.Evict | src/bot.rs:442-459 | with three tokens of the menu's session, the first is withdrawn and its tally decremented |
| BotState.Bot.Toggle | src/bot.rs:419-481 | a stale menu changes nothing; a vote already held for `target` is withdrawn (first match only); any other vote is cast |
| BotState.Bot.VoteCallback | src/bot.rs:398-492 | an unparsable target, a closed poll or an unknown voter changes nothing; otherwise the outcome is as `Toggle` |
| BotState.Bot.ClearCallback | src/bot.rs:362-396 | only the caller's tokens that decrypt under the key are withdrawn, each decrementing its tally; the rest, and other voters, are untouched |
| BotState.Bot.WithdrawSession | src/bot.rs:371-384 | the clear loop leaves `Keep` of the caller's list and `Untally` of the tallies |
| BotState.Bot.WithdrawLoop | src/bot.rs:372-384 | the clear loop carries its progress over the whole of the caller's original list |
| BotState.Bot.WithdrawStep | src/bot.rs:373-383 | one pass of the clear loop advances its progress by one position |
| BotState.Bot.CheckCallback | src/bot.rs:319-360 | read-only; reports the caller's candidates of that session in storage order, each a candidate of the poll |
| BotState.Bot.Register | src/bot.rs:494-524 | `/accept` adds the caller to the voters only from the group chat and only when not already one |
| BotState.Bot.AddAdmin | src/bot.rs:527-558 | only an admin in a private chat gets a code; it is fresh and is the one code added |
| BotState.Bot.AcceptAdmin | src/bot.rs:560-607 | exactly one parameter; a non-admin with an outstanding code spends it and becomes an admin; an invalid code changes no admin |

## Left out

- Chat I/O is not modelled. This covers Telegram sends, reply texts, Markdown, menus and time rendering (`handle_poll`, `handle_vote`, `handle_start`, the help commands). Replies are the `Reply` datatype.
- `handle_vote` draws the session key half that a menu carries. It is the `key` parameter of the callbacks.
- Persistence is not modelled: `src/middlewares/db.rs` is not part of this model. The token store is in memory, and the errors the source swallows with `.ok()` cannot happen.
- `Bot.constructor` does not model `Bot::new` reading the configuration file or recovering a poll from the database. It starts with no poll open.
- `Register`, `AcceptAdmin`: `config.add_user`/`add_admin` and `sync` write a file and are not modelled.
- `Register`: whether a message comes from the group chat is the boolean parameter `fromGroupChat`. The group chat itself is state that `handle_register_chat` (src/bot.rs:637-656) sets when an admin calls it; that handler is not modelled.
- Clocks and randomness are parameters:
  - the two `Utc::now()` readings of `handle_create_poll`;
  - the poll key bytes;
  - the digests `_gen` would hash from random origins.
- `TokenService.Gen`: the retry loop, which terminates only with probability one, runs over a given sequence of digests. Its requires says that one of them is fresh.
- AES-256-GCM-SIV and SHA3-256 are not modelled. The cipher is a transparent stand-in with the same round-trip and wrong-key behaviour; it hides nothing, so confidentiality is not modelled.
- `PollTokens.AsciiText`: `String::from_utf8` is modelled on ASCII only. Valid non-ASCII UTF-8 cannot parse as an i64, so `Decrypt` gives the same result either way.
- `Bot.CreatePoll`: `now + times * 60` is i64 arithmetic in the source and overflows for durations past about 1.5 × 10^17 minutes. The model does not model that overflow, because it uses unbounded integers.
- `Bot.CheckCallback`: reports candidate numbers rather than candidate names.
- `Bot.VoteCallback`: its precondition (`Bot.VoteDefined`) rules out two cast-branch panics that a caller can reach, so the model says nothing about what happens then:
  - A voter with no stored tokens sends callback data whose key half is not hex or not 16 bytes. Nothing decrypts, so `cnt == list.len() == 0` and the cast branch runs. `src/bot.rs:461-464` raises the tally and writes it to the database, and only then does `PollToken::new` panic (src/poll_token.rs:25-27). The database keeps a vote with no token, so tally conservation fails after a restart.
  - A voter with no stored tokens presses a button on the menu of an earlier poll that had more candidates. The candidate number is past the current list, and `src/bot.rs:461` panics on the index.
- `Bot.VoteCallback`, `Bot.ClearCallback`, `Bot.CheckCallback`: the callback data is given already split into target text and key. The `splited[1]`/`splited[2]` panics on short data are not modelled.
- `PollRanking.Rank`: `sort` and `reverse` work in place on a vector in the source. The model computes them as functions on sequences, with sort as an insertion sort.
- The auto-close in `src/main.rs` (`check_poll` when `end <= now`) and the command dispatch belong to the caller and are not modelled.
