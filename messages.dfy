/**
 * `POST /api/v1/messages`: stores an encrypted note envelope for its recipient. Deposit
 * notes are always filed under the authenticated owner, a sender key other than the
 * authenticated one is refused, and the table admits one row per content hash.
 */
module Messages {
  import opened Wrappers
  import opened Hex
  import opened Primitives
  import opened CryptoService

  datatype Kind = NoteTransfer | NoteDeposit | NoteMessage

  function KindName(k: Kind): string
  {
    match k
    case NoteTransfer => "note-transfer"
    case NoteDeposit => "note-deposit"
    case NoteMessage => "note-message"
  }

  /** The `kind` field: one of the three names, `note-transfer` when absent. */
  function ParseKind(s: Option<string>): Option<Kind>
  {
    match s
    case None => Some(NoteTransfer)
    case Some(name) =>
      if name == "note-transfer" then Some(NoteTransfer)
      else if name == "note-deposit" then Some(NoteDeposit)
      else if name == "note-message" then Some(NoteMessage)
      else None
  }

  /** Exactly the three names parse, each to its own kind; an absent kind is a transfer. */
  lemma ParseKindNames(s: string)
    ensures ParseKind(None) == Some(NoteTransfer)
    ensures ParseKind(Some(s)).Some? <==> s in {"note-transfer", "note-deposit", "note-message"}
    ensures ParseKind(Some(s)).Some? ==> KindName(ParseKind(Some(s)).value) == s
    ensures forall k: Kind :: ParseKind(Some(KindName(k))) == Some(k)
  {
  }

  datatype PostBody = PostBody(recipientKey: string, ciphertextB64: string, kind: Option<string>, senderKey: Option<string>)

  /** A row of the message table. */
  datatype MessageRow = MessageRow(
    id: nat, recipientKey: string, senderKey: Option<string>, ciphertext: seq<byte>, kind: Kind, contentHash: string)

  datatype PostError =
    | InvalidBody        // the body does not have the validated shape
    | SenderKeyMismatch  // 403 sender_key_mismatch
    | DuplicateMessage   // 409 duplicate_message

  datatype PostReply = PostReply(id: string, contentHash: string)

  /** The rows in insertion order and the next id the table's sequence hands out. */
  datatype MessageTable = MessageTable(rows: seq<MessageRow>, nextId: nat)

  predicate ValidBody(body: PostBody)
  {
    && IsHex0x(body.recipientKey)
    && |body.ciphertextB64| > 0
    && ParseKind(body.kind).Some?
    && (body.senderKey.Some? ==> IsHex0x(body.senderKey.value))
  }

  /** Where the note is filed: deposits under the authenticated owner, the rest as addressed. */
  function FinalRecipient(kind: Kind, recipientKey: string, authKey: string): string
  {
    if kind == NoteDeposit then authKey else recipientKey
  }

  predicate SenderMismatch(senderKey: Option<string>, authKey: string)
  {
    senderKey.Some? && senderKey.value != authKey
  }

  predicate HashTaken(rows: seq<MessageRow>, h: string)
  {
    exists i | 0 <= i < |rows| :: rows[i].contentHash == h
  }

  /** Content hashes are unique and ids are distinct and below the next id. */
  ghost predicate TableInvariant(t: MessageTable)
  {
    && (forall i, j | 0 <= i < j < |t.rows| :: t.rows[i].contentHash != t.rows[j].contentHash)
    && (forall i | 0 <= i < |t.rows| :: t.rows[i].id < t.nextId)
    && (forall i, j | 0 <= i < j < |t.rows| :: t.rows[i].id != t.rows[j].id)
  }

  /** The content hash of a validated body sent by `authKey`. */
  function BodyHash(c: Crypto, authKey: string, body: PostBody): string
    requires IsHex0x(authKey) && ValidBody(body)
  {
    var recipient := FinalRecipient(ParseKind(body.kind).value, body.recipientKey, authKey);
    ComputeContentHash(c, recipient, c.base64(body.ciphertextB64))
  }

  /**
   * The handler, for a request authenticated as `authKey`: the new table and the reply.
   * The authenticated key is an owner key the user table accepted, hence of the 0x-hex shape.
   */
  function Post(c: Crypto, t: MessageTable, authKey: string, body: PostBody): (MessageTable, Result<PostReply, PostError>)
    requires IsHex0x(authKey)
  {
    if !ValidBody(body) then (t, Failure(InvalidBody))
    else
      var kind := ParseKind(body.kind).value;
      var recipient := FinalRecipient(kind, body.recipientKey, authKey);
      if SenderMismatch(body.senderKey, authKey) then (t, Failure(SenderKeyMismatch))
      else
        var ciphertext := c.base64(body.ciphertextB64);
        var h := ComputeContentHash(c, recipient, ciphertext);
        if HashTaken(t.rows, h) then (t, Failure(DuplicateMessage))
        else
          (MessageTable(t.rows + [MessageRow(t.nextId, recipient, body.senderKey, ciphertext, kind, h)], t.nextId + 1),
           Success(PostReply(NatToString(t.nextId, 10), h)))
  }

  /** A sender key other than the authenticated one is refused and nothing is stored. */
  lemma PostSenderMismatch(c: Crypto, t: MessageTable, authKey: string, body: PostBody)
    requires IsHex0x(authKey) && ValidBody(body)
    ensures SenderMismatch(body.senderKey, authKey) <==> Post(c, t, authKey, body) == (t, Failure(SenderKeyMismatch))
  {
  }

  /** A message whose content hash is already stored is refused and the table is unchanged. */
  lemma PostDuplicate(c: Crypto, t: MessageTable, authKey: string, body: PostBody)
    requires IsHex0x(authKey) && ValidBody(body) && !SenderMismatch(body.senderKey, authKey)
    ensures HashTaken(t.rows, BodyHash(c, authKey, body)) <==> Post(c, t, authKey, body) == (t, Failure(DuplicateMessage))
  {
  }

  /**
   * A stored message adds exactly one row: filed under the authenticated owner for a deposit
   * and under the body's recipient otherwise, with a null sender when none was sent, the
   * decoded ciphertext, the kind (a transfer when none was sent) and the content hash of the
   * final recipient and the ciphertext. The reply gives the row's id in decimal and the hash.
   */
  lemma PostStores(c: Crypto, t: MessageTable, authKey: string, body: PostBody)
    requires IsHex0x(authKey)
    requires Post(c, t, authKey, body).1.Success?
    ensures ValidBody(body) && !SenderMismatch(body.senderKey, authKey)
    ensures var (t', r) := Post(c, t, authKey, body);
            var row := t'.rows[|t'.rows| - 1];
            && |t'.rows| == |t.rows| + 1 && t'.rows[..|t.rows|] == t.rows
            && row.recipientKey == (if body.kind == Some("note-deposit") then authKey else body.recipientKey)
            && row.senderKey == body.senderKey
            && row.ciphertext == c.base64(body.ciphertextB64)
            && row.kind == (if body.kind.None? then NoteTransfer else ParseKind(body.kind).value)
            && row.contentHash == r.value.contentHash
            && BigIntOfHex(row.contentHash) ==
                 Some(c.poseidon([BigIntOfHex(row.recipientKey).value, BeValue(c.sha256(row.ciphertext))]))
            && !HashTaken(t.rows, row.contentHash)
            && AllDigits(r.value.id, 10) && DigitsValue(r.value.id, 10) == row.id
  {
    var t' := Post(c, t, authKey, body).0;
    assert t'.rows[..|t.rows|] == t.rows;
    NatToStringValue(t.nextId, 10);
  }

  lemma PostPreservesInvariant(c: Crypto, t: MessageTable, authKey: string, body: PostBody)
    requires IsHex0x(authKey) && TableInvariant(t)
    ensures TableInvariant(Post(c, t, authKey, body).0)
  {
  }

  /**
   * De-duplication is by content: once a message is stored, any later message filed under a
   * recipient key with the same value and carrying the same decoded ciphertext is refused,
   * whatever its kind or sender, for as long as the row is in the table.
   */
  lemma RepostIsDuplicate(c: Crypto, t: MessageTable, authKey: string, body: PostBody, authKey2: string, body2: PostBody)
    requires IsHex0x(authKey) && IsHex0x(authKey2)
    requires Post(c, t, authKey, body).1.Success?
    requires ValidBody(body2) && !SenderMismatch(body2.senderKey, authKey2)
    requires var row := Post(c, t, authKey, body).0.rows[|t.rows|];
             var recipient2 := FinalRecipient(ParseKind(body2.kind).value, body2.recipientKey, authKey2);
             && BigIntOfHex(recipient2) == BigIntOfHex(row.recipientKey)
             && c.base64(body2.ciphertextB64) == row.ciphertext
    ensures var t' := Post(c, t, authKey, body).0;
            Post(c, t', authKey2, body2) == (t', Failure(DuplicateMessage))
  {
    var t' := Post(c, t, authKey, body).0;
    var row := t'.rows[|t.rows|];
    var recipient2 := FinalRecipient(ParseKind(body2.kind).value, body2.recipientKey, authKey2);
    ContentHashCanonical(c, row.recipientKey, row.ciphertext, recipient2, c.base64(body2.ciphertextB64));
    assert t'.rows[|t.rows|].contentHash == BodyHash(c, authKey2, body2);
  }

  /** The message table. */
  class MessageStore {
    var rows: seq<MessageRow>
    var nextId: nat

    function State(): MessageTable
      reads this
    {
      MessageTable(rows, nextId)
    }

    ghost predicate Valid()
      reads this
    {
      TableInvariant(State())
    }

    constructor ()
      ensures Valid() && State() == MessageTable([], 1)
    {
      rows, nextId := [], 1;
    }

    /** `POST /api/v1/messages`, authenticated as `authKey`. */
    method PostMessage(c: Crypto, authKey: string, body: PostBody) returns (r: Result<PostReply, PostError>)
      requires Valid() && IsHex0x(authKey)
      modifies this
      ensures Valid()
      ensures (State(), r) == Post(c, old(State()), authKey, body)
    {
      PostPreservesInvariant(c, State(), authKey, body);
      if !ValidBody(body) {
        return Failure(InvalidBody);
      }
      var kind := ParseKind(body.kind).value;
      var recipient := body.recipientKey;
      if kind == NoteDeposit {
        recipient := authKey;
      }
      if body.senderKey.Some? && body.senderKey.value != authKey {
        return Failure(SenderKeyMismatch);
      }
      var ciphertext := c.base64(body.ciphertextB64);
      var h := ComputeContentHash(c, recipient, ciphertext);
      if exists i | 0 <= i < |rows| :: rows[i].contentHash == h {
        return Failure(DuplicateMessage);
      }
      rows := rows + [MessageRow(nextId, recipient, body.senderKey, ciphertext, kind, h)];
      r := Success(PostReply(NatToString(nextId, 10), h));
      nextId := nextId + 1;
    }
  }
}
