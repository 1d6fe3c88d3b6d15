# cipherpay-server core, modelled in Dafny

This project models the authentication and note-accounting layer of cipherpay-server:

- **Nullifiers and the account overview** (`AccountOverview`). A note's nullifier is Poseidon of its owner key, its randomness `r` and its token id. It is printed as 32 little-endian bytes in hex. The overview sums and counts the notes whose nullifier is not spent.
- **Hash messages and signature checking** (`CryptoService`). This covers `sha256Hex`, the content hash used to de-duplicate messages, the login message a client signs, `toBI`, and `verifyBabyJubSig` with its lazily built, cached circomlibjs instances.
- **Challenge/response login** (`Auth`). `/auth/challenge` provisions a user and issues a ten-minute nonce. `/auth/verify` checks the signature, binds the key on first use and issues a token.
- **Message ingestion** (`Messages`). `POST /api/v1/messages` handles the recipient override for deposits, the sender check, and the table that is unique by content hash.
- **Transaction listing** (`Transactions`). `GET /transactions` filters by kind and owner, orders newest first, and paginates by cursor and limit.

`Hex` models the number formats the server relies on:

- `Buffer.toString("hex")`;
- `BigInt("0x…")`;
- `toString(radix)`;
- the `^0x[0-9a-fA-F]+$` shape.

`Primitives` holds the foreign functions: Poseidon, SHA-256 (section 6.2 of FIPS 180-4), Baby Jubjub `verifyPoseidon` and Node's base64 decoder. They are fields of a `Crypto` record that is passed to every operation needing them, so nothing about their internals is assumed. `Wrappers` holds `Option` and `Result`.

Imperative code is modelled with imperative Dafny:

- the nullifier encoder's byte loop is a `method` over an `array`;
- the account overview's per-note pass is a `for` loop;
- the circomlibjs cache, the user/session store and the message table are classes whose methods update their fields.

Each method is proved equal to a pure function of the old state. The properties are lemmas about those functions.

The randomness of `crypto.randomBytes(32)` is a parameter, and so is the clock: `Date.now()` and `new Date()` are a parameter `now` in milliseconds.

In three places the code does not do what its names or comments suggest, and the model follows the code:

- **Single-use nonces.** A challenge nonce reads as single-use, but verify never consumes it: the code never marks or deletes a session, so a verified request verifies again while its session is live. `Auth.VerifyReplay` proves this.
- **Key-field naming.** `/auth/challenge` looks users up by `owner_key` (src/routes/auth.challenge.ts:16). `/auth/verify` uses `owner_cipherpay_pub_key` (src/routes/auth.verify.ts:29). Both are modelled as one user table keyed by the owner key.
- **Content-hash comment.** The comment in src/types/message.ts:6 calls the content hash Poseidon(recipientKey, ciphertext). The code hashes the SHA-256 of the ciphertext (src/services/crypto.ts:96-98), and the model follows the code.

Hex values are read as plain numbers. Nothing requires them to be canonically reduced field elements: the code parses any hex with `BigInt` and leaves the reduction to the library, and so does the model.

## Model

| member | source | states |
|---|---|---|
| AccountOverview.ComputeNullifier | src/services/accountOverview.ts:38-44 | The nullifier: Poseidon of the note's owner key, `randomness.r` and token id. `NullifierInputs` states what it depends on. |
| AccountOverview.NullifierInputs | src/services/accountOverview.ts:38-44 | The nullifier is Poseidon of exactly [owner key, randomness.r, token id], in that order. Notes that agree on those three have the same nullifier, whatever their `s`, amount or memo. |
| AccountOverview.WriteLittleEndian | src/services/accountOverview.ts:52-59 | The loop that masks the low byte and shifts by 8 fills a fresh buffer of `width` bytes with `LeBytes(n, width)`. |
| AccountOverview.NullifierToHex | src/services/accountOverview.ts:50-62 | The result is the hex of the 32 little-endian bytes of the nullifier: exactly 64 lowercase hex characters. |
| AccountOverview.NullifierRoundTrip | src/services/accountOverview.ts:50-62 | Reading the printed hex back as 32 little-endian bytes gives the nullifier modulo 2^256, and gives the nullifier itself when it is a field value below 2^256. |
| AccountOverview.HexNullifierRoundTrip | src/services/accountOverview.ts:50-62 | Every 64-character lowercase hex string is the printed form of the value it encodes: printing is onto the strings the database stores. |
| AccountOverview.LeBytesAt | src/services/accountOverview.ts:55-59 | Byte `i` of the encoding is `(n >> 8i) & 0xff` (Euclidean `/` and `%` by 256, the same as BigInt's `>>` and `&` for any sign), so the layout is little-endian. |
| AccountOverview.LeBytesValue | src/services/accountOverview.ts:55-59 | Reading the `k` bytes back little-endian gives `n mod 256^k`. |
| AccountOverview.LeValueBound | src/services/accountOverview.ts:55-59 | The value of `k` bytes is below `256^k`. |
| AccountOverview.LeValueBytes | src/services/accountOverview.ts:55-59 | Encoding the little-endian value of any byte string gives that string back, so the encoding is a bijection on fixed-width byte strings. |
| AccountOverview.LeHexRoundTrip | src/services/accountOverview.ts:50-62 | Decoding the hex output gives `n mod 2^(8·width)`. |
| AccountOverview.LeHexModular | src/services/accountOverview.ts:50-62 | `n` and `n mod 2^(8·width)` have the same encoding. |
| AccountOverview.HexLeRoundTrip | src/services/accountOverview.ts:61 | Every lowercase hex string of `2·width` characters is the encoding of the number it decodes to. |
| AccountOverview.StatusOf | src/services/accountOverview.ts:72-85 | The entry for one note keeps the note and its amount. Its nullifier hex is 64 lowercase digits that decode to the note's nullifier mod 2^256, and `isSpent` is the lookup's answer for that hex. |
| AccountOverview.Unspent | src/services/accountOverview.ts:87 | The filter keeps only entries of the results that are not spent. |
| AccountOverview.SumAmounts | src/services/accountOverview.ts:88-91 | The `reduce` from `0n`, adding each entry's amount from the left. |
| AccountOverview.FilterReduceAgrees | src/services/accountOverview.ts:87-91 | The reduce over the filtered entries equals the sum of `amount` over unspent entries. The filter's length equals the number of unspent entries. |
| AccountOverview.ComputeAccountOverview | src/services/accountOverview.ts:68-98 | `totalNotes` is the number of notes, and `notes` has the same length and order as the input. Entry `i` carries note `i`, its amount, the hex of its nullifier and the spent lookup for that hex. `shieldedBalance` is the sum of unspent amounts and `spendableNotes` the count of unspent entries. |
| AccountOverview.CountsPartition | src/services/accountOverview.ts:87-96 | Spendable plus spent equals total, and spendable ≤ total. |
| AccountOverview.AggregateConcat | src/services/accountOverview.ts:87-91 | Balance and spendable count are additive over concatenated note lists, so the aggregation does not depend on how the list is split. |
| AccountOverview.AllSpentIsEmpty | src/services/accountOverview.ts:87-91 | With no notes, or with every note spent, the balance and the spendable count are 0. |
| Hex.ParseHex | src/services/crypto.ts:96-97 | `BigInt("0x" + s)`: the value of the digits when `s` is a non-empty run of hex digits of either case, and a syntax error (None) otherwise. |
| Hex.BigIntOfHex | src/services/crypto.ts:107 | `BigInt` of a string that starts with "0x": the value of the digits after the prefix, or None. |
| Hex.NatToString | src/services/crypto.ts:99 | `n.toString(radix)`: the digits of `n`, most significant first. `NatToStringShape` and `NatToStringValue` state its shape and value. |
| Hex.NatToStringShape | src/services/crypto.ts:99 | `toString(radix)` prints a non-empty lowercase digit string whose first digit is '0' only for zero. |
| Hex.NatToStringValue | src/routes/auth.verify.ts:59 | The digits `String(n)` prints read back as `n`. |
| Hex.HexStringRoundTrip | src/services/crypto.ts:99 | `BigInt("0x" + n.toString(16))` is `n`. |
| Hex.BytesToHex | src/services/accountOverview.ts:61 | `Buffer.toString("hex")`: two digits per byte, high nibble first, so the output is twice as long as the buffer. |
| Hex.HexIsLower | src/services/accountOverview.ts:61 | `Buffer.toString("hex")` prints lowercase digits only. |
| Hex.BytesHexRoundTrip | src/services/accountOverview.ts:61 | Decoding what `Buffer.toString("hex")` printed gives the bytes back. |
| Hex.HexBytesRoundTrip | src/services/accountOverview.ts:61 | A lowercase, decodable hex string is exactly what its bytes print as. |
| Hex.HexOfBytesValue | src/services/crypto.ts:97 | For a non-empty buffer, `BigInt("0x" + hex of buf)` is the big-endian value of the buffer. |
| CryptoService.Sha256Hex | src/services/crypto.ts:43-45 | The result is "0x" followed by 64 lowercase hex digits that decode to the SHA-256 digest. As a BigInt it is the digest's big-endian value. |
| CryptoService.ComputeContentHash | src/services/crypto.ts:92-100 | The result is "0x" plus lowercase hex. As a BigInt it is Poseidon([recipient key, SHA-256 of the ciphertext read big-endian]), recipient first. |
| CryptoService.ContentHashCanonical | src/services/crypto.ts:92-100 | Two content hashes are equal iff their Poseidon outputs are equal. A zero output prints as "0x0", and the digits carry no leading zero. |
| CryptoService.PoseidonLoginMsg | src/services/crypto.ts:103-108 | The login message: Poseidon of the nonce's and the owner key's values, nonce first. `LoginMsgByValue` states that only those values matter. |
| CryptoService.LoginMsgByValue | src/services/crypto.ts:103-108 | The login message is Poseidon([nonce, owner key]), nonce first, and depends only on the two numbers. |
| CryptoService.ToBI | src/services/crypto.ts:63 | `toBI` succeeds iff the string, without a leading "0x", is a non-empty run of hex digits, and then gives their value. |
| CryptoService.ToBIPrefix | src/services/crypto.ts:63 | `toBI` reads a string with or without "0x" as the same number, and succeeds exactly on a non-empty run of hex digits. |
| CryptoService.LoadCircomlib | src/services/crypto.ts:10-40 | The lazy loader: the cached pair when both are built, otherwise the curve from `buildBabyjub` or `babyjub` and EdDSA from `eddsa.buildEddsa`, `eddsa` or `buildEddsa`, each failing case a distinct error. `LoadKeepsCache`, `LoadIdempotent` and `LoadFailsWithoutExports` state its properties. |
| CryptoService.LoadKeepsCache | src/services/crypto.ts:10-40 | A cached instance is never rebuilt or replaced. After a successful load both cache variables hold the returned pair. A load that finds no curve fails and changes nothing. A load that builds the curve but finds no EdDSA export keeps the curve it built, so the next load does not rebuild it. |
| CryptoService.LoadIdempotent | src/services/crypto.ts:11-13 | Once both instances are cached, loading returns the same pair and changes nothing. |
| CryptoService.LoadFailsWithoutExports | src/services/crypto.ts:16-24 | With no cached curve and neither `buildBabyjub` nor `babyjub` exported, the load throws whatever EdDSA exports there are, and the cache is unchanged. |
| CryptoService.ParseCoordinate | src/services/crypto.ts:63-74 | `toBI` on a key coordinate that may be null: a null is a TypeError and a malformed string a SyntaxError, each its own error. |
| CryptoService.VerifyBabyJubSig | src/services/crypto.ts:48-89 | The signature check: load, the field check, parsing of the key and then R8x, R8y and S, and `verifyPoseidon`. `VerifySigOutcomes` states its outcomes. |
| CryptoService.VerifySigOutcomes | src/services/crypto.ts:48-89 | A missing `babyJub.F` is an error, never `false`, and so is a null key coordinate. A result means the load succeeded, every number parsed, and the answer is what `verifyPoseidon` says for the message, the signature and the key. |
| CryptoService.CircomlibCache.Load | src/services/crypto.ts:10-40 | The new cache and the result are those of `LoadCircomlib`, and each instance has been built at most once. |
| CryptoService.CircomlibCache.VerifySig | src/services/crypto.ts:48-89 | The new cache and the result are those of `VerifyBabyJubSig`. |
| Auth.Challenge | src/routes/auth.challenge.ts:7-37 | The challenge handler on the user and session tables. The `Challenge…` lemmas below state its properties. |
| Auth.ChallengeNeedsKeyForNewUser | src/routes/auth.challenge.ts:18-20 | An unknown owner key without `authPubKey` gets `missing_authPubKey_for_new_user`. No user and no session is created. |
| Auth.ChallengeUsers | src/routes/auth.challenge.ts:15-28 | An unknown owner key with a key adds exactly one user holding the supplied x and y. A known owner's record is unchanged whatever key is sent. |
| Auth.ChallengeSession | src/routes/auth.challenge.ts:30-36 | Success appends exactly one session for the owner. Its nonce is the 64 lowercase hex digits of the 32 random bytes, and it expires at now + 600000 ms. The reply carries the same nonce and expiry. |
| Auth.ChallengeKeepsSessions | src/routes/auth.challenge.ts:32-34 | Existing sessions are never removed or overwritten. |
| Auth.ChallengeLatestSession | src/routes/auth.challenge.ts:30-34 | The session a successful challenge appends is the one the verify lookup finds for its nonce (the latest match), and it expires ten minutes after the challenge. |
| Auth.ChallengePreservesInvariant | src/routes/auth.challenge.ts:15-34 | Users stay stored under their own owner key with distinct ids, and every session belongs to a user. |
| Auth.AuthStore.IssueChallenge | src/routes/auth.challenge.ts:7-37 | The new tables and the reply are those of `Challenge`, and the store invariant holds. |
| Auth.KeyBound | src/routes/auth.verify.ts:51 | The opposite of the test that triggers binding (either coordinate missing or empty): both stored coordinates are present and non-empty. |
| Auth.LatestSession | src/routes/auth.verify.ts:32-35 | The index found is the last, i.e. most recent, session matching (user, nonce). None means no session matches. |
| Auth.SessionLive | src/routes/auth.verify.ts:36 | The opposite of the refusal test (no session, or `expires_at` before now): the latest matching session exists and expires at or after `now`. |
| Auth.LoginMessage | src/routes/auth.verify.ts:41-44 | The message is `poseidonLoginMsg` of "0x" + nonce and the owner key. |
| Auth.Verify | src/routes/auth.verify.ts:15-64 | The verify handler on the tables and the circomlibjs cache, under a key rule. The `Verify…` lemmas below state its properties. |
| Auth.ResolveKey | src/routes/auth.verify.ts:46 | Without a body key the stored key is used. Under the code's rule a body key always wins. Under the bound-key rule a bound user is always checked against the stored key. |
| Auth.VerifyRefusals | src/routes/auth.verify.ts:29-38 | An unknown owner key gets `unknown_user`. For a known owner, `nonce_expired_or_invalid` comes iff no session matches or the latest one has `expires_at < now` (so `expires_at == now` passes). Neither changes any state. |
| Auth.VerifySignatureStep | src/routes/auth.verify.ts:46-56 | With a live session, `bad_signature` comes iff the signature check answers false. A check that throws gives that error and never `bad_signature`. Success comes iff the check answers true, and then a user without a key gets the body's key. The cache is the one the check leaves. |
| Auth.VerifyWithStoredKey | src/routes/auth.verify.ts:36-56 | With a live session, no key in the body and a signature valid under the stored key, the login succeeds and no user record changes. |
| Auth.ChallengeThenVerify | src/routes/auth.verify.ts:32-48 | A verify of a freshly issued nonce without a key in the body is refused after the expiry, whatever the signature, and succeeds up to and including the expiry when the signature is valid under the stored key; neither changes a user. |
| Auth.VerifySuccess | src/routes/auth.verify.ts:41-63 | Success means the session is live and `verifyPoseidon` accepted the signature over Poseidon("0x" + nonce, ownerKey) under the resolved key. The token's `sub` is the user id in decimal and its `ownerKey` the owner key. |
| Auth.VerifyFailureKeepsUsers | src/routes/auth.verify.ts:47-48 | A failed verify, `bad_signature` included, leaves the tables unchanged. |
| Auth.VerifyKeepsSessions | src/routes/auth.verify.ts:32-63 | Verify never changes the session table, the next user id or the set of owners. |
| Auth.VerifyBinding | src/routes/auth.verify.ts:50-56 | On success a bound user is left as is. A user with a missing coordinate gets the body's key written, and it must have sent one. |
| Auth.VerifyReplay | src/routes/auth.verify.ts:32-63 | A request that verified once verifies again with the same reply from the resulting state, at any later time while its session is live. |
| Auth.RekeyPreservesInvariant | src/routes/auth.verify.ts:51-56 | Rewriting one user's key keeps the store invariant. |
| Auth.VerifyPreservesInvariant | src/routes/auth.verify.ts:29-63 | Verify keeps the store invariant. |
| Auth.ForeignKeyAccepted | src/routes/auth.verify.ts:46 | As written, a user whose key is bound is logged in by a signature under a different key sent in the body, even though the signature fails under the bound key. The corrected rule refuses it with `bad_signature`. |
| Auth.BoundKeyEnforced | src/routes/auth.verify.ts:46 | With the bound key taking precedence, a successful login of a bound user means `verifyPoseidon` accepted the signature under the bound key, and nothing changes. |
| Auth.AuthStore.VerifyChallenge | src/routes/auth.verify.ts:15-64 | The new tables, the new cache and the reply are those of `Verify` under the given key rule, and both invariants hold. |
| Messages.ParseKind | src/routes/messages.post.ts:27 | The `kind` enum with its default: one of the three names, `note-transfer` when absent, anything else refused. |
| Messages.ValidBody | src/routes/messages.post.ts:24-31 | The body schema: a 0x-hex recipient key, a non-empty base64 string, a known kind, and a 0x-hex sender key if one is sent. |
| Messages.FinalRecipient | src/routes/messages.post.ts:42-51 | A deposit is filed under the authenticated owner key, and anything else under the body's recipient key. |
| Messages.SenderMismatch | src/routes/messages.post.ts:54 | A sender key is sent and differs from the authenticated owner key. |
| Messages.HashTaken | src/routes/messages.post.ts:79-81 | Some stored row already has this content hash, which is what the unique constraint's P2002 error reports. |
| Messages.ParseKindNames | src/routes/messages.post.ts:27 | The kind defaults to `note-transfer`, and exactly the three names parse, each to its own kind. |
| Messages.Post | src/routes/messages.post.ts:19-84 | The message handler on the table. The `Post…` lemmas and `RepostIsDuplicate` state its properties. |
| Messages.PostSenderMismatch | src/routes/messages.post.ts:54-56 | A sender key other than the authenticated one gets `sender_key_mismatch` and nothing is stored, and only then. |
| Messages.PostDuplicate | src/routes/messages.post.ts:64-82 | A message gets `duplicate_message` with the table unchanged iff a row with its content hash exists. |
| Messages.PostStores | src/routes/messages.post.ts:42-78 | Success appends exactly one row. It is filed under the authenticated key for a deposit and the body's recipient otherwise. It holds the sent sender key (null when absent), the decoded ciphertext, and the kind (transfer by default). Its content hash is over the final recipient and the ciphertext. The reply gives the row id in decimal and the hash. |
| Messages.PostPreservesInvariant | src/routes/messages.post.ts:64-82 | Content hashes stay unique and row ids distinct. |
| Messages.RepostIsDuplicate | src/routes/messages.post.ts:58-81 | Once stored, a message with the same decoded ciphertext filed under the same recipient value is refused as a duplicate, whatever its kind or sender. |
| Messages.MessageStore.PostMessage | src/routes/messages.post.ts:19-84 | The new table and the reply are those of `Post`, and the table invariant holds. |
| Transactions.EventName | src/routes/tx.get.list.ts:20-21 | The event filter for a kind: its first letter upper-cased, the rest, then "Completed". `EventNamesMatchCommitments` states the three values. |
| Transactions.EventNamesMatchCommitments | src/routes/tx.get.list.ts:13-21 | "deposit", "transfer" and "withdraw" map to "DepositCompleted", "TransferCompleted" and "WithdrawCompleted". These are exactly the event values commitments are recorded with, one kind per event. |
| Transactions.QueryWhere | src/routes/tx.get.list.ts:19-23 | The `where` object: an event constraint only when a kind is given, and an owner constraint only when an owner is given. |
| Transactions.Matches | src/routes/tx.get.list.ts:19-23 | A row satisfies the event constraint if any, and its recipient or sender key equals the owner if one is given. |
| Transactions.Select | src/routes/tx.get.list.ts:19-23 | A row is selected iff it is in the table and satisfies the kind and owner constraints. |
| Transactions.WhereMeaning | src/routes/tx.get.list.ts:19-23 | Without a kind there is no event constraint, and without an owner no key constraint. With an owner, a row matches iff its recipient or its sender key equals it. |
| Transactions.SortDesc | src/routes/tx.get.list.ts:27 | Newest-first ordering; rows with equal timestamps keep table order. `SortDescCorrect` states sortedness and permutation. |
| Transactions.SortDescCorrect | src/routes/tx.get.list.ts:27 | Ordering puts rows newest first and is a permutation of the selected rows. |
| Transactions.HasCursor | src/routes/tx.get.list.ts:29 | A cursor is used only when given and non-zero, since `0n` is falsy. |
| Transactions.AfterCursor | src/routes/tx.get.list.ts:29 | With a cursor, the rows after the cursor row, which `skip: 1` leaves out. Without one, the whole view. |
| Transactions.PageStart | src/routes/tx.get.list.ts:29 | Where the page begins in the view, and what follows the cursor is the view from there on. |
| Transactions.IndexOfId | src/routes/tx.get.list.ts:29 | The cursor position is the first row with the cursor id. None means no row has it. |
| Transactions.ListTransactions | src/routes/tx.get.list.ts:6-30 | The list handler: validation, the filter, newest-first order, the cursor and the limit. The `List…` lemmas state its properties. |
| Transactions.ValidQuery | src/routes/tx.get.list.ts:7-17 | The query schema: an optional 0x-hex owner, an optional known kind, and a limit in [1, 100] when one is given. |
| Transactions.Limit | src/routes/tx.get.list.ts:14 | The limit, 50 when none is given. |
| Transactions.ListValidation | src/routes/tx.get.list.ts:6-17 | The query is refused iff the owner is not 0x-hex, the kind is unknown or the limit is outside [1, 100]. The limit defaults to 50. |
| Transactions.ListPage | src/routes/tx.get.list.ts:25-30 | At most `limit` rows are returned, in non-increasing timestamp order, each a table row that satisfies the filter. |
| Transactions.ListFirstPage | src/routes/tx.get.list.ts:25-30 | Without a cursor (absent or 0), a matching row is either returned or no newer than every returned row of a full page. |
| Transactions.ListUnknownCursor | src/routes/tx.get.list.ts:29 | A cursor naming no matching row gives an empty page. |
| Transactions.ListAfterCursor | src/routes/tx.get.list.ts:25-30 | With distinct ids, the page is the `limit` rows of the ordered view right after the cursor row, or all of them when fewer remain. So the cursor row is skipped and every returned row is no newer than it. |
| Transactions.ListIsSlice | src/routes/tx.get.list.ts:25-30 | A page is a contiguous run of the ordered view, starting where the cursor puts it, of exactly `limit` rows or all remaining rows when fewer remain. |

## Left out

- `Promise.all` in `computeAccountOverview` runs per-note work concurrently. The model processes the notes in order, which gives the same results array.
- `isNullifierSpent` and the on-chain check are a parameter function of the nullifier hex and `checkOnChain`. `./nullifiers.js` is not part of this model.
- The internals of Poseidon, SHA-256, the EdDSA `verifyPoseidon`, `F.e` field reduction and base64 decoding are out of scope. They are uninterpreted functions, so properties that depend on them, such as a flipped ciphertext bit changing the hash or a tampered `S` failing verification, are not claimed.
- The concurrency races are not modelled: two simultaneous circomlibjs loads, two verifies binding different keys, and two posts of the same message. Every operation runs to completion before the next.
- `verifyBabyJubSig`'s `!babyJub` and `!eddsa` checks (src/services/crypto.ts:55, 58-60) are not modelled separately, because a load that returns always returns both instances.
- JWT signing, the one-hour expiry and `app.auth` (src/auth/jwt.ts) are out of scope. The token is the record of claims `{sub, ownerKey}`.
- `expiresAt.toISOString()` in the challenge reply: the model returns the expiry as milliseconds.
- `BigInt` tolerates surrounding whitespace, so `toBI("0x12 ")` succeeds. `ToBI` accepts only a "0x" prefix followed by hex digits.
- Request bodies are typed records. The zod failures for missing or non-string fields are one `InvalidBody`/`InvalidQuery` outcome, and a query whose `limit` or `cursor` does not coerce to an integer is not represented.
- `Messages.MessageStore.PostMessage`: requires the authenticated owner key to be 0x-hex. The token's key comes from a user row created through `/auth/challenge`, which checks that shape, so `BigInt` of it cannot fail.
- Message ids are a counter that advances only when a row is stored. A database sequence may also skip values after a refused insert.
- The limit is an integer. A fractional `limit` passes zod but is not represented.
- Cursor pagination: the cursor row is looked up in the filtered, ordered view. An id not in that view gives an empty page. The ORM's exact cursor semantics for a cursor row outside the filter are not modelled.
- Rows with equal timestamps are returned in table order. The database leaves their order unspecified.
- Logging (`console.log`, `req.log`) has no behavioural content.
- src/server.ts, src/routes/deposit.submit.post.ts, src/routes/merkle-proof.get.ts, src/services/userAta.ts, src/services/withdrawMapping.ts, src/routes/withdraw.map.post.ts, src/routes/users.get.me.ts and src/validation/sdk.ts are not part of this model. The exceptions are the hex shape and the message-kind names, which the model uses. From src/routes/commitments.post.ts the model uses only its event names.

## Findings

| source | as written | input that shows it | evidently intended | confidence | as-written member | corrected member |
|---|---|---|---|---|---|---|
| src/routes/auth.verify.ts:46 | `body.authPubKey ?? stored key`: the key sent in the body is checked even when the user already has a bound key | A user whose key is bound. A verify request carrying a live nonce, some other key in `authPubKey`, and a signature made with that other key's secret. The request is logged in as that user. | `authPubKey` serves only first-time binding (the comment at auth.verify.ts:12 and the binding at lines 50-56), so a bound user's login must verify under the bound key | high (not executed) | Auth.ForeignKeyAccepted | Auth.BoundKeyEnforced |
