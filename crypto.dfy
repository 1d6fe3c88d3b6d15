/**
 * The hashing and signature helpers of the server: `sha256Hex`, the content hash used to
 * de-duplicate messages, the login message a client signs, and the Baby Jubjub signature
 * check with its lazily built, cached circomlibjs instances.
 */
module CryptoService {
  import opened Wrappers
  import opened Hex
  import opened Primitives

  // ---------------------------------------------------------------------------------------
  // Hash messages

  /** `sha256Hex`: "0x" followed by the lowercase hex of the 32-byte digest. */
  function Sha256Hex(c: Crypto, buf: seq<byte>): (r: string)
    ensures |r| == 66 && r[..2] == "0x" && IsLowerHex(r[2..])
    ensures HexToBytes(r[2..]) == Some(c.sha256(buf))
    ensures BigIntOfHex(r) == Some(BeValue(c.sha256(buf)))
  {
    var digest := c.sha256(buf);
    HexIsLower(digest);
    BytesHexRoundTrip(digest);
    HexOfBytesValue(digest);
    var r := "0x" + BytesToHex(digest);
    assert r[2..] == BytesToHex(digest);
    r
  }

  /**
   * `computeContentHash`: Poseidon of the recipient key and of the SHA-256 of the
   * ciphertext read as a big-endian number, recipient first, printed as "0x" and the
   * unpadded lowercase hex of the field element.
   */
  function ComputeContentHash(c: Crypto, recipientKeyHex: string, ciphertext: seq<byte>): (h: string)
    requires IsHex0x(recipientKeyHex)
    ensures |h| > 2 && h[..2] == "0x" && IsLowerHex(h[2..])
    ensures BigIntOfHex(h) ==
      Some(c.poseidon([BigIntOfHex(recipientKeyHex).value, BeValue(c.sha256(ciphertext))]))
  {
    var rec := BigIntOfHex(recipientKeyHex).value;
    var ch := BigIntOfHex(Sha256Hex(c, ciphertext)).value;
    var field := c.poseidon([rec, ch]);
    HexStringRoundTrip(field);
    NatToStringShape(field, 16);
    var h := "0x" + NatToString(field, 16);
    assert h[2..] == NatToString(field, 16);
    h
  }

  /**
   * The content hash is canonical: its digits carry no leading zero, so a zero field element
   * prints as "0x0", and two messages get the same hash exactly when Poseidon gives the same
   * field element for them.
   */
  lemma ContentHashCanonical(c: Crypto, r1: string, t1: seq<byte>, r2: string, t2: seq<byte>)
    requires IsHex0x(r1) && IsHex0x(r2)
    ensures var f1 := c.poseidon([BigIntOfHex(r1).value, BeValue(c.sha256(t1))]);
            var f2 := c.poseidon([BigIntOfHex(r2).value, BeValue(c.sha256(t2))]);
            && (ComputeContentHash(c, r1, t1) == ComputeContentHash(c, r2, t2) <==> f1 == f2)
            && (f1 == 0 <==> ComputeContentHash(c, r1, t1) == "0x0")
            && (ComputeContentHash(c, r1, t1)[2] == '0' <==> f1 == 0)
  {
    var f1 := c.poseidon([BigIntOfHex(r1).value, BeValue(c.sha256(t1))]);
    var h1 := ComputeContentHash(c, r1, t1);
    var h2 := ComputeContentHash(c, r2, t2);
    NatToStringShape(f1, 16);
    assert h1 == "0x" + NatToString(f1, 16);
    if h1 == "0x0" {
      assert NatToString(f1, 16)[0] == '0';
    }
    if h1 == h2 {
      assert BigIntOfHex(h1) == BigIntOfHex(h2);
    }
  }

  /** `poseidonLoginMsg`: Poseidon of the nonce and the owner key, nonce first. */
  function PoseidonLoginMsg(c: Crypto, nonceHex: string, ownerKeyHex: string): nat
    requires IsHex0x(nonceHex) && IsHex0x(ownerKeyHex)
  {
    c.poseidon([BigIntOfHex(nonceHex).value, BigIntOfHex(ownerKeyHex).value])
  }

  /**
   * The login message depends only on the numbers the two strings stand for, nonce first:
   * letter case and leading zeros of either do not change what the client must sign.
   */
  lemma LoginMsgByValue(c: Crypto, n1: string, o1: string, n2: string, o2: string)
    requires IsHex0x(n1) && IsHex0x(o1) && IsHex0x(n2) && IsHex0x(o2)
    requires ParseHex(n1[2..]) == ParseHex(n2[2..]) && ParseHex(o1[2..]) == ParseHex(o2[2..])
    ensures PoseidonLoginMsg(c, n1, o1) == PoseidonLoginMsg(c, n2, o2)
    ensures PoseidonLoginMsg(c, n1, o1) == c.poseidon([DigitsValue(n1[2..], 16), DigitsValue(o1[2..], 16)])
  {
  }

  /** `toBI` inside `verifyBabyJubSig`: `BigInt` of the string, with "0x" put in front when missing. */
  function ToBI(h: string): (r: Option<nat>)
    ensures var digits := if |h| >= 2 && h[..2] == "0x" then h[2..] else h;
            && (r.Some? <==> IsHexDigits(digits))
            && (r.Some? ==> r.value == DigitsValue(digits, 16))
  {
    if |h| >= 2 && h[..2] == "0x" then BigIntOfHex(h)
    else
      var p := "0x" + h;
      assert p[2..] == h;
      BigIntOfHex(p)
  }

  /**
   * `toBI` reads a string with or without the "0x" prefix as the same number, and succeeds
   * exactly on a non-empty run of hex digits.
   */
  lemma ToBIPrefix(h: string)
    requires !(|h| >= 2 && h[..2] == "0x")
    ensures ToBI(h) == ToBI("0x" + h)
    ensures ToBI(h).Some? <==> IsHexDigits(h)
    ensures ToBI(h).Some? ==> ToBI(h).value == DigitsValue(h, 16)
  {
    var p := "0x" + h;
    assert p[..2] == "0x" && p[2..] == h;
  }

  // ---------------------------------------------------------------------------------------
  // circomlibjs instances and their cache

  /** A built Baby Jubjub curve; `hasField` tells whether it exposes its field `F`. */
  datatype BabyJub = BabyJub(hasField: bool)

  /** A built EdDSA instance; only its identity matters here. */
  datatype Eddsa = Eddsa(tag: nat)

  /** What the `eddsa` export of circomlibjs is. */
  datatype EddsaExport =
    | NoEddsaExport
    | EddsaNamespaceWithBuilder(built: Eddsa)  // `eddsa.buildEddsa` is a function building this
    | EddsaNamespace(instance: Eddsa)          // `eddsa` is itself the instance

  /** The exports `loadCircomlib` probes, each with what it yields. */
  datatype Circomlib = Circomlib(
    buildBabyjub: Option<BabyJub>,
    babyjub: Option<BabyJub>,
    eddsa: EddsaExport,
    buildEddsa: Option<Eddsa>)

  datatype LoadError = BuildBabyjubUnavailable | EddsaUnavailable

  /** The two module-level cache variables. */
  datatype CacheState = CacheState(babyJub: Option<BabyJub>, eddsa: Option<Eddsa>)

  datatype Loaded = Loaded(babyJub: BabyJub, eddsa: Eddsa)

  /** What `loadCircomlib` does to the cache and what it returns or throws. */
  function LoadCircomlib(st: CacheState, lib: Circomlib): (CacheState, Result<Loaded, LoadError>)
  {
    if st.babyJub.Some? && st.eddsa.Some? then
      (st, Success(Loaded(st.babyJub.value, st.eddsa.value)))
    else
      var bj: Option<BabyJub> :=
        if st.babyJub.Some? then st.babyJub
        else if lib.buildBabyjub.Some? then lib.buildBabyjub
        else lib.babyjub;
      if bj.None? then (st, Failure(BuildBabyjubUnavailable))
      else
        var ed: Option<Eddsa> :=
          if st.eddsa.Some? then st.eddsa
          else match lib.eddsa
            case EddsaNamespaceWithBuilder(e) => Some(e)
            case EddsaNamespace(e) => Some(e)
            case NoEddsaExport => lib.buildEddsa;
        if ed.None? then (CacheState(bj, st.eddsa), Failure(EddsaUnavailable))
        else (CacheState(bj, ed), Success(Loaded(bj.value, ed.value)))
  }

  /**
   * A cached instance is never rebuilt or replaced, and a successful load leaves both
   * instances cached as the ones it returned.
   */
  lemma LoadKeepsCache(st: CacheState, lib: Circomlib)
    ensures var (st', r) := LoadCircomlib(st, lib);
            && (st.babyJub.Some? ==> st'.babyJub == st.babyJub)
            && (st.eddsa.Some? ==> st'.eddsa == st.eddsa)
            && (r.Success? ==> st' == CacheState(Some(r.value.babyJub), Some(r.value.eddsa)))
            && (r.Failure? ==> st'.eddsa == st.eddsa)
            && (r == Failure(BuildBabyjubUnavailable) ==> st' == st)
            && (r == Failure(EddsaUnavailable) ==>
                  && st'.babyJub.Some?
                  && (st.babyJub.None? ==>
                        st'.babyJub == (if lib.buildBabyjub.Some? then lib.buildBabyjub else lib.babyjub)))
  {
  }

  /** Once a load has succeeded, every later load returns the same pair and changes nothing. */
  lemma LoadIdempotent(st: CacheState, lib: Circomlib, lib': Circomlib)
    requires LoadCircomlib(st, lib).1.Success?
    ensures var (st1, r1) := LoadCircomlib(st, lib);
            LoadCircomlib(st1, lib') == (st1, r1)
  {
  }

  /**
   * Without a cached curve, a library exporting neither `buildBabyjub` nor `babyjub` fails the
   * load, whatever it exports for EdDSA, and leaves what was cached.
   */
  lemma LoadFailsWithoutExports(st: CacheState, lib: Circomlib)
    requires st.babyJub.None? && lib.buildBabyjub.None? && lib.babyjub.None?
    ensures LoadCircomlib(st, lib) == (st, Failure(BuildBabyjubUnavailable))
  {
  }

  datatype Signature = Signature(R8x: string, R8y: string, S: string)

  /** A public key as handed to `verifyBabyJubSig`; a stored coordinate may be null. */
  datatype PubKey = PubKey(x: Option<string>, y: Option<string>)

  datatype CryptoError =
    | LoadFailed(cause: LoadError)
    | FieldUnavailable     // `babyJub.F` is missing
    | NullCoordinate       // `toBI(null)`: a TypeError
    | MalformedNumber      // `BigInt` of something that is not hex: a SyntaxError

  function ParseCoordinate(h: Option<string>): Result<nat, CryptoError>
  {
    match h
    case None => Failure(NullCoordinate)
    case Some(s) => if ToBI(s).Some? then Success(ToBI(s).value) else Failure(MalformedNumber)
  }

  /**
   * What `verifyBabyJubSig` does: load the instances, throw when the field is unavailable or
   * a number does not parse (public key first, then R8x, R8y and S), otherwise answer what
   * `verifyPoseidon` answers on the message, the signature and the key.
   */
  function VerifyBabyJubSig(c: Crypto, st: CacheState, lib: Circomlib, msgField: int, sig: Signature, pub: PubKey)
    : (CacheState, Result<bool, CryptoError>)
  {
    var (st', loaded) := LoadCircomlib(st, lib);
    if loaded.Failure? then (st', Failure(LoadFailed(loaded.error)))
    else if !loaded.value.babyJub.hasField then (st', Failure(FieldUnavailable))
    else
      var ax := ParseCoordinate(pub.x);
      var ay := ParseCoordinate(pub.y);
      var r8x := ToBI(sig.R8x);
      var r8y := ToBI(sig.R8y);
      var s := ToBI(sig.S);
      if ax.Failure? then (st', Failure(ax.error))
      else if ay.Failure? then (st', Failure(ay.error))
      else if r8x.None? || r8y.None? || s.None? then (st', Failure(MalformedNumber))
      else (st', Success(c.verifyPoseidon(msgField, Point(r8x.value, r8y.value), s.value, Point(ax.value, ay.value))))
  }

  /**
   * An unavailable field is an error, never a `false` answer; a well-formed call answers
   * exactly what `verifyPoseidon` answers.
   */
  lemma VerifySigOutcomes(c: Crypto, st: CacheState, lib: Circomlib, msgField: int, sig: Signature, pub: PubKey)
    ensures var (st', r) := VerifyBabyJubSig(c, st, lib, msgField, sig, pub);
            var (st'', loaded) := LoadCircomlib(st, lib);
            && st' == st''
            && (loaded.Success? && !loaded.value.babyJub.hasField ==> r == Failure(FieldUnavailable))
            && (pub.x.None? ==> r.Failure?)
            && (r.Success? ==>
                  && loaded.Success? && loaded.value.babyJub.hasField
                  && pub.x.Some? && pub.y.Some?
                  && ToBI(pub.x.value).Some? && ToBI(pub.y.value).Some?
                  && ToBI(sig.R8x).Some? && ToBI(sig.R8y).Some? && ToBI(sig.S).Some?
                  && r.value == c.verifyPoseidon(msgField,
                       Point(ToBI(sig.R8x).value, ToBI(sig.R8y).value), ToBI(sig.S).value,
                       Point(ToBI(pub.x.value).value, ToBI(pub.y.value).value)))
  {
  }

  /** The module-level cache of built circomlibjs instances. */
  class CircomlibCache {
    var babyJub: Option<BabyJub>
    var eddsa: Option<Eddsa>
    /** How many times each instance has been built or taken from the library. */
    ghost var babyJubBuilds: nat
    ghost var eddsaBuilds: nat

    ghost predicate Valid()
      reads this
    {
      && babyJubBuilds == (if babyJub.Some? then 1 else 0)
      && eddsaBuilds == (if eddsa.Some? then 1 else 0)
    }

    function State(): CacheState
      reads this
    {
      CacheState(babyJub, eddsa)
    }

    constructor ()
      ensures Valid() && State() == CacheState(None, None)
    {
      babyJub, eddsa := None, None;
      babyJubBuilds, eddsaBuilds := 0, 0;
    }

    /** `loadCircomlib`: builds each missing instance, at most once over the life of the cache. */
    method Load(lib: Circomlib) returns (r: Result<Loaded, LoadError>)
      requires Valid()
      modifies this
      ensures Valid() && babyJubBuilds <= 1 && eddsaBuilds <= 1
      ensures (State(), r) == LoadCircomlib(old(State()), lib)
    {
      if babyJub.Some? && eddsa.Some? {
        return Success(Loaded(babyJub.value, eddsa.value));
      }
      if babyJub.None? {
        if lib.buildBabyjub.Some? {
          babyJub := lib.buildBabyjub;
        } else if lib.babyjub.Some? {
          babyJub := lib.babyjub;
        } else {
          return Failure(BuildBabyjubUnavailable);
        }
        babyJubBuilds := babyJubBuilds + 1;
      }
      if eddsa.None? {
        match lib.eddsa {
          case EddsaNamespaceWithBuilder(e) =>
            eddsa := Some(e);
          case EddsaNamespace(e) =>
            eddsa := Some(e);
          case NoEddsaExport =>
            if lib.buildEddsa.Some? {
              eddsa := lib.buildEddsa;
            } else {
              return Failure(EddsaUnavailable);
            }
        }
        eddsaBuilds := eddsaBuilds + 1;
      }
      r := Success(Loaded(babyJub.value, eddsa.value));
    }

    /** `verifyBabyJubSig`, reading and filling this cache. */
    method VerifySig(c: Crypto, lib: Circomlib, msgField: int, sig: Signature, pub: PubKey)
      returns (r: Result<bool, CryptoError>)
      requires Valid()
      modifies this
      ensures Valid()
      ensures (State(), r) == VerifyBabyJubSig(c, old(State()), lib, msgField, sig, pub)
    {
      var loaded := Load(lib);
      if loaded.Failure? {
        return Failure(LoadFailed(loaded.error));
      }
      if !loaded.value.babyJub.hasField {
        return Failure(FieldUnavailable);
      }
      var ax := ParseCoordinate(pub.x);
      if ax.Failure? {
        return Failure(ax.error);
      }
      var ay := ParseCoordinate(pub.y);
      if ay.Failure? {
        return Failure(ay.error);
      }
      var r8x, r8y, s := ToBI(sig.R8x), ToBI(sig.R8y), ToBI(sig.S);
      if r8x.None? || r8y.None? || s.None? {
        return Failure(MalformedNumber);
      }
      r := Success(c.verifyPoseidon(msgField, Point(r8x.value, r8y.value), s.value, Point(ax.value, ay.value)));
    }
  }
}
