/**
 * Nullifier derivation, its 32-byte little-endian hex encoding, and the account overview
 * that sums the amounts of the notes whose nullifier is not spent.
 */
module AccountOverview {
  import opened Wrappers
  import opened Hex
  import opened Primitives

  datatype Randomness = Randomness(r: int, s: Option<int>)

  /** A decrypted note, as the client hands it over; the server never changes one. */
  datatype Note = Note(
    amount: int,
    tokenId: int,
    ownerCipherPayPubKey: int,
    randomness: Randomness,
    memo: Option<string>)

  /** One entry of the overview's `notes` list. */
  datatype NoteStatus = NoteStatus(note: Note, nullifierHex: string, isSpent: bool, amount: int)

  datatype Overview = Overview(
    shieldedBalance: int,
    spendableNotes: nat,
    totalNotes: nat,
    notes: seq<NoteStatus>)

  /** Width of an encoded nullifier, in bytes. */
  const NullifierBytes: nat := 32

  /** Poseidon over the owner key, the randomness `r` and the token id, in the circuit's order. */
  function ComputeNullifier(c: Crypto, note: Note): nat
  {
    c.poseidon([note.ownerCipherPayPubKey, note.randomness.r, note.tokenId])
  }

  /**
   * The nullifier reads only the owner key, `randomness.r` and the token id, and hands them
   * to Poseidon in that order: `randomness.s`, the amount and the memo play no part.
   */
  lemma NullifierInputs(c: Crypto, a: Note, b: Note)
    requires a.ownerCipherPayPubKey == b.ownerCipherPayPubKey
    requires a.randomness.r == b.randomness.r && a.tokenId == b.tokenId
    ensures ComputeNullifier(c, a) == ComputeNullifier(c, b)
    ensures ComputeNullifier(c, a) == c.poseidon([a.ownerCipherPayPubKey, b.randomness.r, a.tokenId])
  {
  }

  // ---------------------------------------------------------------------------------------
  // Little-endian bytes

  function Pow256(k: nat): (p: nat)
    ensures p > 0
  {
    if k == 0 then 1 else 256 * Pow256(k - 1)
  }

  /**
   * The low `k` bytes of `n`, least significant first: byte `i` is `(n >> 8i) & 0xff`.
   * Euclidean `%` and `/` by 256 are exactly BigInt's `& 0xffn` and `>> 8n`, negative
   * numbers included.
   */
  function LeBytes(n: int, k: nat): (bs: seq<byte>)
    ensures |bs| == k
    decreases k
  {
    if k == 0 then [] else [n % 256] + LeBytes(n / 256, k - 1)
  }

  /** The number a little-endian byte string stands for. */
  function LeValue(bs: seq<byte>): nat
  {
    if bs == [] then 0 else bs[0] + 256 * LeValue(bs[1..])
  }

  lemma MulAtLeast(x: int, d: int)
    requires x >= 1 && d > 0
    ensures x * d >= d
    decreases x
  {
    if x > 1 {
      MulAtLeast(x - 1, d);
      assert x * d == (x - 1) * d + d;
    }
  }

  lemma MulGap(q: int, q0: int, d: int)
    requires q > q0 && d > 0
    ensures q * d >= q0 * d + d
  {
    MulAtLeast(q - q0, d);
    assert (q - q0) * d == q * d - q0 * d;
  }

  lemma DivModUnique(a: int, d: int, q: int, r: int)
    requires d > 0 && a == q * d + r && 0 <= r < d
    ensures a / d == q && a % d == r
  {
    var q0, r0 := a / d, a % d;
    assert a == q0 * d + r0;
    if q > q0 {
      MulGap(q, q0, d);
    } else if q < q0 {
      MulGap(q0, q, d);
    }
  }

  lemma Regroup(q: int, c: int, r: int, b: int)
    ensures (q * c + r) * b == q * (b * c) + b * r
  {
  }

  lemma ScaledRemainder(b: int, c: int, r: int)
    requires b > 0 && 0 <= r < c
    ensures 0 <= b * r <= b * c - b
  {
    assert (c - 1 - r) * b >= 0;
    assert (c - 1 - r) * b == b * c - b - b * r;
  }

  /** Shifting by `b` and then by `c` is shifting by `b * c`, and the remainders combine. */
  lemma DivModNested(a: int, b: int, c: int)
    requires b > 0 && c > 0
    ensures a / b / c == a / (b * c)
    ensures a % (b * c) == a % b + b * (a / b % c)
  {
    var q, r := a / b, a % b;
    var q2, r2 := q / c, q % c;
    Regroup(q2, c, r2, b);
    ScaledRemainder(b, c, r2);
    assert a == (q2 * c + r2) * b + r;
    DivModUnique(a, b * c, q2, b * r2 + r);
  }

  /** Byte `i` of the encoding is `(n >> 8i) & 0xff`: the layout is little-endian. */
  lemma {:induction false} LeBytesAt(n: int, k: nat, i: nat)
    requires i < k
    ensures LeBytes(n, k)[i] == n / Pow256(i) % 256
    decreases k
  {
    if i > 0 {
      LeBytesAt(n / 256, k - 1, i - 1);
      DivModNested(n, 256, Pow256(i - 1));
    }
  }

  /** Reading the `k` bytes back gives `n` modulo 2^(8k). */
  lemma {:induction false} LeBytesValue(n: int, k: nat)
    ensures LeValue(LeBytes(n, k)) == n % Pow256(k)
    decreases k
  {
    if k > 0 {
      LeBytesValue(n / 256, k - 1);
      DivModNested(n, 256, Pow256(k - 1));
      assert LeBytes(n, k)[1..] == LeBytes(n / 256, k - 1);
    }
  }

  lemma {:induction false} LeValueBound(bs: seq<byte>)
    ensures LeValue(bs) < Pow256(|bs|)
  {
    if bs != [] {
      LeValueBound(bs[1..]);
    }
  }

  /** Encoding the value of `k` bytes gives the same bytes: the two are inverse bijections. */
  lemma {:induction false} LeValueBytes(bs: seq<byte>)
    ensures LeBytes(LeValue(bs), |bs|) == bs
  {
    if bs != [] {
      var v := LeValue(bs);
      DivModUnique(v, 256, LeValue(bs[1..]), bs[0]);
      LeValueBound(bs[1..]);
      LeValueBytes(bs[1..]);
      assert bs == [bs[0]] + bs[1..];
    }
  }

  /** Decodes `2 * width` hex digits as a little-endian number of `width` bytes. */
  function HexToLe(h: string, width: nat): Option<nat>
  {
    match HexToBytes(h)
    case Some(bs) => if |bs| == width then Some(LeValue(bs)) else None
    case None => None
  }

  /** Decoding the hex of the `width` low bytes of `n` gives `n` modulo 2^(8 width). */
  lemma LeHexRoundTrip(n: int, width: nat)
    ensures HexToLe(BytesToHex(LeBytes(n, width)), width) == Some(n % Pow256(width))
  {
    BytesHexRoundTrip(LeBytes(n, width));
    LeBytesValue(n, width);
  }

  /** Only the low `width` bytes of `n` reach the encoding. */
  lemma LeHexModular(n: int, width: nat)
    ensures BytesToHex(LeBytes(n, width)) == BytesToHex(LeBytes(n % Pow256(width), width))
  {
    LeBytesValue(n, width);
    LeValueBytes(LeBytes(n, width));
  }

  /** Every lowercase hex string of `2 * width` digits is the encoding of what it decodes to. */
  lemma HexLeRoundTrip(h: string, width: nat)
    requires |h| == 2 * width && IsLowerHex(h) && HexToBytes(h).Some?
    ensures HexToLe(h, width).Some?
    ensures BytesToHex(LeBytes(HexToLe(h, width).value, width)) == h
  {
    var bs := HexToBytes(h).value;
    HexBytesRoundTrip(h);
    LeValueBytes(bs);
  }

  // ---------------------------------------------------------------------------------------
  // nullifierToHex

  /** The shift-and-mask loop of `nullifierToHex`: writes the low `width` bytes of `n`, least significant first. */
  method WriteLittleEndian(n: int, width: nat) returns (buf: array<byte>)
    ensures fresh(buf) && buf[..] == LeBytes(n, width)
  {
    buf := new byte[width];
    var rest := n;
    for i := 0 to width
      invariant buf[..i] + LeBytes(rest, width - i) == LeBytes(n, width)
    {
      assert LeBytes(rest, width - i) == [rest % 256] + LeBytes(rest / 256, width - i - 1);
      buf[i] := rest % 256;
      assert buf[..i + 1] == buf[..i] + [rest % 256];
      rest := rest / 256;
    }
    assert LeBytes(rest, 0) == [];
    assert buf[..] == buf[..width];
  }

  /** `nullifierToHex`: the 32 little-endian bytes of the nullifier, printed as 64 lowercase hex digits. */
  method NullifierToHex(nullifier: int) returns (hex: string)
    ensures hex == BytesToHex(LeBytes(nullifier, NullifierBytes))
    ensures |hex| == 64 && IsLowerHex(hex)
  {
    var buf := WriteLittleEndian(nullifier, NullifierBytes);
    hex := BytesToHex(buf[..]);
    HexIsLower(buf[..]);
  }

  /** The encoding `nullifierToHex` computes, as a function. */
  function NullifierHex(n: int): string
  {
    BytesToHex(LeBytes(n, NullifierBytes))
  }

  /** Decodes a 64-digit hex nullifier: the inverse of NullifierHex. */
  function HexToNullifier(h: string): Option<nat>
  {
    HexToLe(h, NullifierBytes)
  }

  /** A nullifier decodes back to itself modulo 2^256, so one below 2^256 round-trips exactly. */
  lemma NullifierRoundTrip(n: int)
    ensures HexToNullifier(NullifierHex(n)) == Some(n % Pow256(NullifierBytes))
    ensures 0 <= n < Pow256(NullifierBytes) ==> HexToNullifier(NullifierHex(n)) == Some(n)
  {
    LeHexRoundTrip(n, NullifierBytes);
    SmallMod(n, Pow256(NullifierBytes));
  }

  lemma SmallMod(n: int, m: int)
    requires m > 0
    ensures 0 <= n < m ==> n % m == n
  {
    if 0 <= n < m {
      DivModUnique(n, m, 0, n);
    }
  }

  /** Every 64-digit lowercase hex string is the encoding of the nullifier it decodes to. */
  lemma HexNullifierRoundTrip(h: string)
    requires |h| == 64 && IsLowerHex(h) && HexToBytes(h).Some?
    ensures HexToNullifier(h).Some? && NullifierHex(HexToNullifier(h).value) == h
  {
    HexLeRoundTrip(h, NullifierBytes);
  }

  // ---------------------------------------------------------------------------------------
  // computeAccountOverview

  /** What the overview records for one note, given the spent-status lookup. */
  function StatusOf(c: Crypto, isNullifierSpent: (string, bool) -> bool, checkOnChain: bool, note: Note): (e: NoteStatus)
    ensures e.note == note && e.amount == note.amount
    ensures |e.nullifierHex| == 64 && IsLowerHex(e.nullifierHex)
    ensures HexToNullifier(e.nullifierHex) == Some(ComputeNullifier(c, note) % Pow256(NullifierBytes))
    ensures e.isSpent == isNullifierSpent(e.nullifierHex, checkOnChain)
  {
    var n := ComputeNullifier(c, note);
    var hex := NullifierHex(n);
    HexIsLower(LeBytes(n, NullifierBytes));
    NullifierRoundTrip(n);
    NoteStatus(note, hex, isNullifierSpent(hex, checkOnChain), note.amount)
  }

  /** `results.filter((r) => !r.isSpent)`. */
  function Unspent(results: seq<NoteStatus>): (r: seq<NoteStatus>)
    ensures |r| <= |results|
    ensures forall e | e in r :: e in results && !e.isSpent
  {
    if results == [] then []
    else if results[0].isSpent then Unspent(results[1..])
    else [results[0]] + Unspent(results[1..])
  }

  /** `reduce((sum, r) => sum + r.amount, 0n)`, folding from the left. */
  function SumAmounts(entries: seq<NoteStatus>): int
  {
    if entries == [] then 0 else SumAmounts(entries[..|entries| - 1]) + entries[|entries| - 1].amount
  }

  /** Reference definition: the sum of `amount` over the entries that are not spent. */
  function UnspentBalance(entries: seq<NoteStatus>): int
  {
    if entries == [] then 0
    else (if entries[0].isSpent then 0 else entries[0].amount) + UnspentBalance(entries[1..])
  }

  /** Reference definition: the number of entries that are not spent. */
  function UnspentCount(entries: seq<NoteStatus>): nat
  {
    if entries == [] then 0
    else (if entries[0].isSpent then 0 else 1) + UnspentCount(entries[1..])
  }

  /** The number of entries that are spent. */
  function SpentCount(entries: seq<NoteStatus>): nat
  {
    if entries == [] then 0
    else (if entries[0].isSpent then 1 else 0) + SpentCount(entries[1..])
  }

  lemma {:induction false} SumAmountsCons(e: NoteStatus, rest: seq<NoteStatus>)
    ensures SumAmounts([e] + rest) == e.amount + SumAmounts(rest)
  {
    if rest != [] {
      var s := [e] + rest;
      assert s[..|s| - 1] == [e] + rest[..|rest| - 1];
      SumAmountsCons(e, rest[..|rest| - 1]);
    } else {
      assert ([e] + rest)[..0] == [];
    }
  }

  /** Filtering the unspent entries and then summing gives the reference balance and count. */
  lemma {:induction false} FilterReduceAgrees(results: seq<NoteStatus>)
    ensures SumAmounts(Unspent(results)) == UnspentBalance(results)
    ensures |Unspent(results)| == UnspentCount(results)
  {
    if results != [] {
      FilterReduceAgrees(results[1..]);
      if !results[0].isSpent {
        SumAmountsCons(results[0], Unspent(results[1..]));
      }
    }
  }

  /**
   * Sequential model of `computeAccountOverview`: one status per note, in input order, then
   * the balance and count of the unspent ones. `isNullifierSpent` is the spent-status lookup.
   */
  method ComputeAccountOverview(c: Crypto, isNullifierSpent: (string, bool) -> bool, notes: seq<Note>, checkOnChain: bool)
    returns (overview: Overview)
    ensures overview.totalNotes == |notes| == |overview.notes|
    ensures forall i | 0 <= i < |notes| ::
      overview.notes[i] == StatusOf(c, isNullifierSpent, checkOnChain, notes[i])
    ensures overview.shieldedBalance == UnspentBalance(overview.notes)
    ensures overview.spendableNotes == UnspentCount(overview.notes)
  {
    var results: seq<NoteStatus> := [];
    for i := 0 to |notes|
      invariant |results| == i
      invariant forall j | 0 <= j < i :: results[j] == StatusOf(c, isNullifierSpent, checkOnChain, notes[j])
    {
      var note := notes[i];
      var nullifier := ComputeNullifier(c, note);
      var nullifierHex := NullifierToHex(nullifier);
      var isSpent := isNullifierSpent(nullifierHex, checkOnChain);
      results := results + [NoteStatus(note, nullifierHex, isSpent, note.amount)];
    }
    var spendable := Unspent(results);
    var shieldedBalance := SumAmounts(spendable);
    FilterReduceAgrees(results);
    overview := Overview(shieldedBalance, |spendable|, |notes|, results);
  }

  /** Every entry is spent or unspent: the two counts add up to the total. */
  lemma {:induction false} CountsPartition(entries: seq<NoteStatus>)
    ensures UnspentCount(entries) + SpentCount(entries) == |entries|
    ensures UnspentCount(entries) <= |entries|
  {
    if entries != [] {
      CountsPartition(entries[1..]);
    }
  }

  /** The balance and count of a concatenation are the sums of the parts' balances and counts. */
  lemma {:induction false} AggregateConcat(a: seq<NoteStatus>, b: seq<NoteStatus>)
    ensures UnspentBalance(a + b) == UnspentBalance(a) + UnspentBalance(b)
    ensures UnspentCount(a + b) == UnspentCount(a) + UnspentCount(b)
  {
    if a != [] {
      assert (a + b)[1..] == a[1..] + b;
      AggregateConcat(a[1..], b);
    } else {
      assert a + b == b;
    }
  }

  /** Only unspent entries contribute: if every entry is spent the balance and count are 0. */
  lemma {:induction false} AllSpentIsEmpty(entries: seq<NoteStatus>)
    requires forall i | 0 <= i < |entries| :: entries[i].isSpent
    ensures UnspentBalance(entries) == 0 && UnspentCount(entries) == 0
  {
    if entries != [] {
      AllSpentIsEmpty(entries[1..]);
    }
  }
}
