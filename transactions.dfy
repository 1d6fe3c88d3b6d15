/**
 * `GET /transactions`: a read-only view of the transaction table, filtered by event kind
 * and by owner key, newest first, paginated by a row-id cursor and capped by a limit.
 */
module Transactions {
  import opened Wrappers
  import opened Hex

  /** A row of the transaction table; the keys are nullable columns. */
  datatype TxRow = TxRow(id: int, event: string, recipientKey: Option<string>, senderKey: Option<string>, timestamp: int)

  // ---------------------------------------------------------------------------------------
  // Kinds and event names

  datatype TxKind = Deposit | Transfer | Withdraw

  function KindText(k: TxKind): string
  {
    match k
    case Deposit => "deposit"
    case Transfer => "transfer"
    case Withdraw => "withdraw"
  }

  function ParseTxKind(s: string): Option<TxKind>
  {
    if s == "deposit" then Some(Deposit)
    else if s == "transfer" then Some(Transfer)
    else if s == "withdraw" then Some(Withdraw)
    else None
  }

  /** `toUpperCase` on one character, for the ASCII letters the kinds are made of. */
  function UpperAscii(ch: char): char
  {
    if 'a' <= ch <= 'z' then (ch as int - 32) as char else ch
  }

  /** The event name filtered on: first letter upper-cased, then the rest, then "Completed". */
  function EventName(kind: string): string
    requires |kind| > 0
  {
    [UpperAscii(kind[0])] + kind[1..] + "Completed"
  }

  /** The event values `POST /commitments` accepts when it records a transaction. */
  const CommitmentEvents: set<string> := {"DepositCompleted", "TransferCompleted", "WithdrawCompleted"}

  /**
   * The three kinds map to "DepositCompleted", "TransferCompleted" and "WithdrawCompleted":
   * exactly the event values recorded for commitments, one kind per event.
   */
  lemma EventNamesMatchCommitments(k: TxKind, k': TxKind)
    ensures EventName("deposit") == "DepositCompleted"
    ensures EventName("transfer") == "TransferCompleted"
    ensures EventName("withdraw") == "WithdrawCompleted"
    ensures EventName(KindText(k)) in CommitmentEvents
    ensures EventName(KindText(k)) == EventName(KindText(k')) ==> k == k'
    ensures forall e | e in CommitmentEvents :: exists j: TxKind :: EventName(KindText(j)) == e
  {
    assert EventName("deposit") == "DepositCompleted";
    assert EventName("transfer") == "TransferCompleted";
    assert EventName("withdraw") == "WithdrawCompleted";
    assert EventName(KindText(Deposit)) == "DepositCompleted";
    assert EventName(KindText(Transfer)) == "TransferCompleted";
    assert EventName(KindText(Withdraw)) == "WithdrawCompleted";
  }

  // ---------------------------------------------------------------------------------------
  // The query

  /** Query string fields after coercion; `None` is an absent field. */
  datatype TxQuery = TxQuery(owner: Option<string>, kind: Option<string>, limit: Option<int>, cursor: Option<int>)

  const DefaultLimit: int := 50
  const MaxLimit: int := 100

  predicate ValidQuery(q: TxQuery)
  {
    && (q.owner.Some? ==> IsHex0x(q.owner.value))
    && (q.kind.Some? ==> ParseTxKind(q.kind.value).Some?)
    && (q.limit.Some? ==> 1 <= q.limit.value <= MaxLimit)
  }

  function Limit(q: TxQuery): int
  {
    if q.limit.Some? then q.limit.value else DefaultLimit
  }

  /** The `where` object: an event constraint and an owner constraint, each optional. */
  datatype Where = Where(event: Option<string>, owner: Option<string>)

  function QueryWhere(q: TxQuery): Where
  {
    Where(if q.kind.Some? && |q.kind.value| > 0 then Some(EventName(q.kind.value)) else None, q.owner)
  }

  predicate Matches(x: TxRow, w: Where)
  {
    && (w.event.Some? ==> x.event == w.event.value)
    && (w.owner.Some? ==> x.recipientKey == w.owner || x.senderKey == w.owner)
  }

  /** The rows of the table that satisfy `w`, in table order. */
  function Select(rows: seq<TxRow>, w: Where): (r: seq<TxRow>)
    ensures |r| <= |rows|
    ensures forall x :: x in r <==> x in rows && Matches(x, w)
  {
    if rows == [] then []
    else
      var rest := Select(rows[1..], w);
      assert forall x :: x in rows <==> x == rows[0] || x in rows[1..];
      if Matches(rows[0], w) then [rows[0]] + rest else rest
  }

  // ---------------------------------------------------------------------------------------
  // Ordering by timestamp, newest first

  predicate SortedDesc(s: seq<TxRow>)
  {
    forall i, j | 0 <= i < j < |s| :: s[i].timestamp >= s[j].timestamp
  }

  /** Places `x` before the first row that is not newer, so earlier rows win ties. */
  function InsertDesc(x: TxRow, s: seq<TxRow>): seq<TxRow>
  {
    if s == [] || x.timestamp >= s[0].timestamp then [x] + s
    else [s[0]] + InsertDesc(x, s[1..])
  }

  /** The table ordered by timestamp, newest first; rows with equal timestamps keep table order. */
  function SortDesc(s: seq<TxRow>): seq<TxRow>
  {
    if s == [] then [] else InsertDesc(s[0], SortDesc(s[1..]))
  }

  /** A slice of a sorted sequence is sorted, and holds rows of the sequence. */
  lemma SortedSlice(s: seq<TxRow>, lo: nat, hi: nat)
    requires SortedDesc(s) && lo <= hi <= |s|
    ensures SortedDesc(s[lo..hi])
    ensures forall x | x in s[lo..hi] :: x in s
  {
    forall i, j | 0 <= i < j < hi - lo ensures s[lo..hi][i].timestamp >= s[lo..hi][j].timestamp {
      assert s[lo..hi][i] == s[lo + i] && s[lo..hi][j] == s[lo + j];
    }
  }

  /** No two rows share an id, as for a primary key. */
  predicate IdsDistinct(s: seq<TxRow>)
  {
    forall i, j | 0 <= i < j < |s| :: s[i].id != s[j].id
  }

  /** What a sorted or id-distinct sequence says about its head and its tail. */
  lemma TailFacts(s: seq<TxRow>)
    requires s != []
    ensures forall y :: y in s <==> y == s[0] || y in s[1..]
    ensures SortedDesc(s) ==> SortedDesc(s[1..]) && forall y | y in s :: y.timestamp <= s[0].timestamp
    ensures IdsDistinct(s) ==> IdsDistinct(s[1..]) && forall y | y in s[1..] :: y.id != s[0].id
  {
    assert s == [s[0]] + s[1..];
    if SortedDesc(s) {
      forall i, j | 0 <= i < j < |s[1..]| ensures s[1..][i].timestamp >= s[1..][j].timestamp {
        assert s[1..][i] == s[i + 1] && s[1..][j] == s[j + 1];
      }
      forall y | y in s ensures y.timestamp <= s[0].timestamp {
        var k :| 0 <= k < |s| && s[k] == y;
      }
    }
    if IdsDistinct(s) {
      forall i, j | 0 <= i < j < |s[1..]| ensures s[1..][i].id != s[1..][j].id {
        assert s[1..][i] == s[i + 1] && s[1..][j] == s[j + 1];
      }
      forall y | y in s[1..] ensures y.id != s[0].id {
        var k :| 0 <= k < |s[1..]| && s[1..][k] == y;
        assert s[k + 1] == y;
      }
    }
  }

  /** A row no older than any row of a sorted sequence can go in front of it. */
  lemma ConsSorted(a: TxRow, t: seq<TxRow>)
    requires SortedDesc(t) && forall y | y in t :: y.timestamp <= a.timestamp
    ensures SortedDesc([a] + t)
  {
    var r := [a] + t;
    forall i, j | 0 <= i < j < |r| ensures r[i].timestamp >= r[j].timestamp {
      assert r[j] == t[j - 1];
      if i == 0 { assert t[j - 1] in t; } else { assert r[i] == t[i - 1]; }
    }
  }

  /** A row whose id no row of an id-distinct sequence has can go in front of it. */
  lemma ConsDistinct(a: TxRow, t: seq<TxRow>)
    requires IdsDistinct(t) && forall y | y in t :: y.id != a.id
    ensures IdsDistinct([a] + t)
  {
    var r := [a] + t;
    forall i, j | 0 <= i < j < |r| ensures r[i].id != r[j].id {
      assert r[j] == t[j - 1];
      if i == 0 { assert t[j - 1] in t; } else { assert r[i] == t[i - 1]; }
    }
  }

  lemma {:induction false} InsertDescPerm(x: TxRow, s: seq<TxRow>)
    ensures multiset(InsertDesc(x, s)) == multiset(s) + multiset{x}
    ensures forall y :: y in InsertDesc(x, s) <==> y == x || y in s
  {
    if s != [] && x.timestamp < s[0].timestamp {
      InsertDescPerm(x, s[1..]);
      TailFacts(s);
      assert s == [s[0]] + s[1..];
    }
  }

  lemma {:induction false} InsertDescSorted(x: TxRow, s: seq<TxRow>)
    requires SortedDesc(s)
    ensures SortedDesc(InsertDesc(x, s))
  {
    if s == [] {
      ConsSorted(x, s);
    } else {
      TailFacts(s);
      if x.timestamp >= s[0].timestamp {
        ConsSorted(x, s);
      } else {
        InsertDescSorted(x, s[1..]);
        InsertDescPerm(x, s[1..]);
        ConsSorted(s[0], InsertDesc(x, s[1..]));
      }
    }
  }

  /** Ordering sorts the rows newest first and neither loses nor adds a row. */
  lemma {:induction false} SortDescCorrect(s: seq<TxRow>)
    ensures SortedDesc(SortDesc(s))
    ensures multiset(SortDesc(s)) == multiset(s)
  {
    if s != [] {
      SortDescCorrect(s[1..]);
      InsertDescSorted(s[0], SortDesc(s[1..]));
      InsertDescPerm(s[0], SortDesc(s[1..]));
      assert s == [s[0]] + s[1..];
    }
  }

  lemma {:induction false} SelectDistinct(rows: seq<TxRow>, w: Where)
    requires IdsDistinct(rows)
    ensures IdsDistinct(Select(rows, w))
  {
    if rows != [] {
      TailFacts(rows);
      SelectDistinct(rows[1..], w);
      if Matches(rows[0], w) {
        ConsDistinct(rows[0], Select(rows[1..], w));
      }
    }
  }

  lemma {:induction false} InsertDistinct(x: TxRow, s: seq<TxRow>)
    requires IdsDistinct(s) && forall y | y in s :: y.id != x.id
    ensures IdsDistinct(InsertDesc(x, s))
  {
    if s == [] || x.timestamp >= s[0].timestamp {
      ConsDistinct(x, s);
    } else {
      TailFacts(s);
      InsertDistinct(x, s[1..]);
      InsertDescPerm(x, s[1..]);
      ConsDistinct(s[0], InsertDesc(x, s[1..]));
    }
  }

  lemma {:induction false} SortDistinct(s: seq<TxRow>)
    requires IdsDistinct(s)
    ensures IdsDistinct(SortDesc(s))
  {
    if s != [] {
      TailFacts(s);
      SortDistinct(s[1..]);
      SortDescCorrect(s[1..]);
      var t := SortDesc(s[1..]);
      forall y | y in t ensures y.id != s[0].id {
        assert y in multiset(s[1..]);
      }
      InsertDistinct(s[0], t);
    }
  }

  // ---------------------------------------------------------------------------------------
  // Cursor, limit and the handler

  /** The first position of the row with this id. */
  function IndexOfId(s: seq<TxRow>, id: int): (r: Option<nat>)
    ensures r.Some? ==> r.value < |s| && s[r.value].id == id
    ensures r.Some? ==> forall j | 0 <= j < r.value :: s[j].id != id
    ensures r.None? ==> forall j | 0 <= j < |s| :: s[j].id != id
  {
    if s == [] then None
    else if s[0].id == id then Some(0)
    else match IndexOfId(s[1..], id)
      case None => None
      case Some(p) => Some(p + 1)
  }

  /** The matching rows, newest first: the view the cursor and the limit apply to. */
  function View(rows: seq<TxRow>, q: TxQuery): seq<TxRow>
  {
    SortDesc(Select(rows, QueryWhere(q)))
  }

  /** A cursor of 0 is falsy and counts as no cursor. */
  predicate HasCursor(q: TxQuery)
  {
    q.cursor.Some? && q.cursor.value != 0
  }

  /** What follows the cursor row, which is skipped; nothing when the cursor row is not in view. */
  function AfterCursor(view: seq<TxRow>, q: TxQuery): seq<TxRow>
  {
    if !HasCursor(q) then view
    else match IndexOfId(view, q.cursor.value)
      case None => []
      case Some(p) => view[p + 1..]
  }

  /** Where the page begins in the view: it is the view from that position on. */
  function PageStart(view: seq<TxRow>, q: TxQuery): (lo: nat)
    ensures lo <= |view| && AfterCursor(view, q) == view[lo..]
  {
    if !HasCursor(q) then 0
    else match IndexOfId(view, q.cursor.value)
      case None => |view|
      case Some(p) => p + 1
  }

  datatype QueryError = InvalidQuery

  /** The handler: the rows it sends, or the validation error. */
  function ListTransactions(rows: seq<TxRow>, q: TxQuery): Result<seq<TxRow>, QueryError>
  {
    if !ValidQuery(q) then Failure(InvalidQuery)
    else
      var page := AfterCursor(View(rows, q), q);
      var n := if Limit(q) < |page| then Limit(q) else |page|;
      Success(page[..n])
  }

  /** Without a kind there is no event constraint, and without an owner no key constraint. */
  lemma WhereMeaning(q: TxQuery, x: TxRow)
    requires ValidQuery(q)
    ensures q.kind.None? && q.owner.None? ==> Matches(x, QueryWhere(q))
    ensures Matches(x, QueryWhere(q)) <==>
              && (q.kind.Some? ==> x.event == EventName(q.kind.value) && x.event in CommitmentEvents)
              && (q.owner.Some? ==> x.recipientKey == q.owner || x.senderKey == q.owner)
  {
    if q.kind.Some? {
      var k := ParseTxKind(q.kind.value).value;
      assert q.kind.value == KindText(k);
      EventNamesMatchCommitments(k, k);
    }
  }

  /** An invalid owner, an unknown kind or a limit outside [1, 100] is refused. */
  lemma ListValidation(rows: seq<TxRow>, q: TxQuery)
    ensures ListTransactions(rows, q).Failure? <==>
              || (q.owner.Some? && !IsHex0x(q.owner.value))
              || (q.kind.Some? && q.kind.value !in {"deposit", "transfer", "withdraw"})
              || (q.limit.Some? && !(1 <= q.limit.value <= 100))
    ensures ListTransactions(rows, q).Success? ==> 1 <= Limit(q) <= 100
    ensures q.limit.None? ==> Limit(q) == 50
  {
  }

  /**
   * Every page holds at most `limit` rows, newest first, each a row of the table that
   * satisfies the kind and owner constraints.
   */
  lemma ListPage(rows: seq<TxRow>, q: TxQuery)
    requires ListTransactions(rows, q).Success?
    ensures var r := ListTransactions(rows, q).value;
            && |r| <= Limit(q) <= MaxLimit
            && SortedDesc(r)
            && forall x | x in r :: x in rows && Matches(x, QueryWhere(q))
  {
    var w := QueryWhere(q);
    var sel := Select(rows, w);
    var view := SortDesc(sel);
    SortDescCorrect(sel);
    var r := ListTransactions(rows, q).value;
    var lo := PageStart(view, q);
    assert r == view[lo..lo + |r|];
    SortedSlice(view, lo, lo + |r|);
    forall x | x in r ensures x in rows && Matches(x, w) {
      assert x in multiset(view);
      assert x in sel;
    }
  }

  /**
   * Without a cursor the page is the newest matching rows: a matching row left out is no
   * newer than any row on the page, and when the page is not full it holds every match.
   */
  lemma ListFirstPage(rows: seq<TxRow>, q: TxQuery, x: TxRow)
    requires ListTransactions(rows, q).Success? && !HasCursor(q)
    requires x in rows && Matches(x, QueryWhere(q))
    ensures var r := ListTransactions(rows, q).value;
            x in r || (|r| == Limit(q) && forall y | y in r :: x.timestamp <= y.timestamp)
  {
    var view := View(rows, q);
    SortDescCorrect(Select(rows, QueryWhere(q)));
    assert x in multiset(view);
    var j :| 0 <= j < |view| && view[j] == x;
    var r := ListTransactions(rows, q).value;
    if j < |r| {
      assert r[j] == x;
    }
  }

  /**
   * A successful page is the run of `limit` rows of the view from where the cursor puts it,
   * or everything from there on when fewer rows remain.
   */
  lemma ListIsSlice(rows: seq<TxRow>, q: TxQuery)
    requires ListTransactions(rows, q).Success?
    ensures var r := ListTransactions(rows, q).value;
            var lo := PageStart(View(rows, q), q);
            && lo + |r| <= |View(rows, q)| && |r| <= Limit(q)
            && |r| == (if Limit(q) < |View(rows, q)| - lo then Limit(q) else |View(rows, q)| - lo)
            && r == View(rows, q)[lo..lo + |r|]
  {
  }

  /** A cursor that names no matching row gives an empty page. */
  lemma ListUnknownCursor(rows: seq<TxRow>, q: TxQuery)
    requires ListTransactions(rows, q).Success? && HasCursor(q)
    requires forall x | x in rows && Matches(x, QueryWhere(q)) :: x.id != q.cursor.value
    ensures ListTransactions(rows, q).value == []
  {
    ViewFacts(rows, q);
    ListIsSlice(rows, q);
    var view := View(rows, q);
    assert IndexOfId(view, q.cursor.value).None? by {
      forall j | 0 <= j < |view| ensures view[j].id != q.cursor.value {
        assert view[j] in view;
      }
    }
  }

  /**
   * With a cursor naming a matching row, the page continues after that row: when ids are
   * distinct, the page is the `limit` rows of the view right after the cursor row (all of
   * them when fewer remain), so the cursor row is not on it and every row on it is no newer.
   */
  lemma ListAfterCursor(rows: seq<TxRow>, q: TxQuery, x: TxRow)
    requires ListTransactions(rows, q).Success? && HasCursor(q) && IdsDistinct(rows)
    requires x in rows && Matches(x, QueryWhere(q)) && x.id == q.cursor.value
    ensures var view := View(rows, q);
            var r := ListTransactions(rows, q).value;
            var p := IndexOfId(view, x.id);
            && p.Some? && view[p.value] == x
            && |r| == (if Limit(q) < |view| - p.value - 1 then Limit(q) else |view| - p.value - 1)
            && r == view[p.value + 1..p.value + 1 + |r|]
    ensures forall y | y in ListTransactions(rows, q).value :: y.id != x.id && y.timestamp <= x.timestamp
  {
    var j := ViewIndex(rows, q, x);
    CursorPage(rows, q, j);
  }

  /** A matching row has a position in the view. */
  lemma ViewIndex(rows: seq<TxRow>, q: TxQuery, x: TxRow) returns (j: nat)
    requires x in rows && Matches(x, QueryWhere(q))
    ensures j < |View(rows, q)| && View(rows, q)[j] == x
  {
    ViewFacts(rows, q);
    var view := View(rows, q);
    assert x in view;
    j :| 0 <= j < |view| && view[j] == x;
  }

  /** The page when the cursor names the view's row `j`: the run right after it. */
  lemma CursorPage(rows: seq<TxRow>, q: TxQuery, j: nat)
    requires ListTransactions(rows, q).Success? && HasCursor(q) && IdsDistinct(rows)
    requires j < |View(rows, q)| && View(rows, q)[j].id == q.cursor.value
    ensures var view := View(rows, q);
            var r := ListTransactions(rows, q).value;
            && IndexOfId(view, q.cursor.value) == Some(j)
            && |r| == (if Limit(q) < |view| - j - 1 then Limit(q) else |view| - j - 1)
            && r == view[j + 1..j + 1 + |r|]
            && forall y | y in r :: y.id != view[j].id && y.timestamp <= view[j].timestamp
  {
    var view := View(rows, q);
    ViewFacts(rows, q);
    ListIsSlice(rows, q);
    CursorRow(view, q, j);
    var r := ListTransactions(rows, q).value;
    forall y | y in r ensures y.id != view[j].id && y.timestamp <= view[j].timestamp {
      var i :| 0 <= i < |r| && r[i] == y;
      assert y == view[j + 1 + i];
    }
  }

  /** In a sorted, id-distinct view, the page after the cursor row holds only older rows. */
  lemma CursorRow(view: seq<TxRow>, q: TxQuery, j: nat)
    requires SortedDesc(view) && IdsDistinct(view) && HasCursor(q)
    requires j < |view| && view[j].id == q.cursor.value
    ensures IndexOfId(view, q.cursor.value) == Some(j) && PageStart(view, q) == j + 1
    ensures forall i | j < i < |view| :: view[i].id != view[j].id && view[i].timestamp <= view[j].timestamp
  {
    assert IndexOfId(view, q.cursor.value) == Some(j);
  }

  /** The view holds exactly the matching rows, newest first, with distinct ids when the table has them. */
  lemma ViewFacts(rows: seq<TxRow>, q: TxQuery)
    ensures SortedDesc(View(rows, q))
    ensures forall x :: x in View(rows, q) <==> x in rows && Matches(x, QueryWhere(q))
    ensures IdsDistinct(rows) ==> IdsDistinct(View(rows, q))
  {
    var w := QueryWhere(q);
    var sel := Select(rows, w);
    SortDescCorrect(sel);
    assert forall x :: x in View(rows, q) <==> x in multiset(sel);
    if IdsDistinct(rows) {
      SelectDistinct(rows, w);
      SortDistinct(sel);
    }
  }
}
