/**
 * Bytes and the textual number formats the server relies on: `Buffer.toString("hex")`,
 * `BigInt("0x…")`, `bigint.toString(16)`, `String(id)` and the `^0x[0-9a-fA-F]+$` shape
 * that the request validators accept.
 */
module Hex {
  import opened Wrappers

  /** One byte of a Node `Buffer` or `Uint8Array`. */
  type byte = b: int | 0 <= b < 256

  /** The lowercase digit for `d`, as `toString(radix)` and `Buffer.toString("hex")` print it. */
  function DigitChar(d: nat): (c: char)
    requires d < 16
  {
    if d < 10 then ('0' as int + d) as char else ('a' as int + d - 10) as char
  }

  /** The value of one digit as `BigInt` reads it: 0-9, a-f and A-F. */
  function DigitValue(c: char): Option<nat>
  {
    if '0' <= c <= '9' then Some(c as int - '0' as int)
    else if 'a' <= c <= 'f' then Some(c as int - 'a' as int + 10)
    else if 'A' <= c <= 'F' then Some(c as int - 'A' as int + 10)
    else None
  }

  predicate IsDigitIn(c: char, radix: nat)
  {
    DigitValue(c).Some? && DigitValue(c).value < radix
  }

  predicate AllDigits(s: string, radix: nat)
  {
    forall i | 0 <= i < |s| :: IsDigitIn(s[i], radix)
  }

  /** A digit the printers emit: `0-9` or lowercase `a-f`. */
  predicate IsLowerDigit(c: char)
  {
    '0' <= c <= '9' || 'a' <= c <= 'f'
  }

  predicate IsLowerHex(s: string)
  {
    forall i | 0 <= i < |s| :: IsLowerDigit(s[i])
  }

  /** The shape `^[0-9a-fA-F]+$`. */
  predicate IsHexDigits(s: string)
  {
    |s| > 0 && AllDigits(s, 16)
  }

  /** The shape `^0x[0-9a-fA-F]+$` checked by the request validators. */
  predicate IsHex0x(s: string)
  {
    |s| > 2 && s[..2] == "0x" && IsHexDigits(s[2..])
  }

  lemma DigitCharValue(d: nat)
    requires d < 16
    ensures DigitValue(DigitChar(d)) == Some(d)
    ensures IsLowerDigit(DigitChar(d))
    ensures DigitChar(d) == '0' <==> d == 0
  {
  }

  lemma AllDigitsConcat(s: string, t: string, radix: nat)
    requires AllDigits(s, radix) && AllDigits(t, radix)
    ensures AllDigits(s + t, radix)
  {
    forall i | 0 <= i < |s + t| ensures IsDigitIn((s + t)[i], radix) {
      if i < |s| { assert (s + t)[i] == s[i]; } else { assert (s + t)[i] == t[i - |s|]; }
    }
  }

  lemma AllDigitsPrefix(s: string, k: nat, radix: nat)
    requires AllDigits(s, radix) && k <= |s|
    ensures AllDigits(s[..k], radix)
  {
    forall i | 0 <= i < k ensures IsDigitIn(s[..k][i], radix) { assert s[..k][i] == s[i]; }
  }

  /** Euclidean division by a radix, the step of every digit loop. */
  lemma DivStep(n: nat, radix: nat)
    requires 2 <= radix <= n
    ensures 1 <= n / radix < n
    ensures n == n / radix * radix + n % radix && n % radix < radix
  {
  }

  /** Big-endian value of a digit string in the given radix; the empty string is 0. */
  function DigitsValue(s: string, radix: nat): nat
    requires AllDigits(s, radix)
    decreases |s|
  {
    if s == [] then 0
    else
      AllDigitsPrefix(s, |s| - 1, radix);
      DigitsValue(s[..|s| - 1], radix) * radix + DigitValue(s[|s| - 1]).value
  }

  /** `BigInt("0x" + s)`: a syntax error (None) unless `s` is a non-empty run of hex digits. */
  function ParseHex(s: string): Option<nat>
  {
    if IsHexDigits(s) then Some(DigitsValue(s, 16)) else None
  }

  /** `BigInt(s)` for a string that starts with "0x". */
  function BigIntOfHex(s: string): Option<nat>
    requires |s| >= 2 && s[..2] == "0x"
  {
    ParseHex(s[2..])
  }

  /** `n.toString(radix)`: lowercase digits, most significant first, "0" for zero. */
  function NatToString(n: nat, radix: nat): string
    requires 2 <= radix <= 16
    decreases n
  {
    if n < radix then [DigitChar(n)]
    else
      DivStep(n, radix);
      NatToString(n / radix, radix) + [DigitChar(n % radix)]
  }

  /** `toString(radix)` prints a non-empty lowercase digit string with no leading zero. */
  lemma {:induction false} NatToStringShape(n: nat, radix: nat)
    requires 2 <= radix <= 16
    ensures |NatToString(n, radix)| > 0
    ensures AllDigits(NatToString(n, radix), radix) && IsLowerHex(NatToString(n, radix))
    ensures NatToString(n, radix)[0] == '0' <==> n == 0
  {
    var s := NatToString(n, radix);
    if n < radix {
      DigitCharValue(n);
    } else {
      DivStep(n, radix);
      var p := NatToString(n / radix, radix);
      NatToStringShape(n / radix, radix);
      DigitCharValue(n % radix);
      assert s == p + [DigitChar(n % radix)];
      assert s[0] == p[0];
      forall i | 0 <= i < |s| ensures IsDigitIn(s[i], radix) && IsLowerDigit(s[i]) {
        if i < |p| { assert s[i] == p[i]; }
      }
    }
  }

  /** Reading back what `toString(radix)` printed gives the number: the printer is injective. */
  lemma {:induction false} NatToStringValue(n: nat, radix: nat)
    requires 2 <= radix <= 16
    ensures AllDigits(NatToString(n, radix), radix)
    ensures DigitsValue(NatToString(n, radix), radix) == n
  {
    NatToStringShape(n, radix);
    var s := NatToString(n, radix);
    if n < radix {
      DigitCharValue(n);
      assert s[..0] == [];
    } else {
      DivStep(n, radix);
      var p := NatToString(n / radix, radix);
      NatToStringValue(n / radix, radix);
      DigitCharValue(n % radix);
      assert s[..|s| - 1] == p;
    }
  }

  /** `toString(16)` followed by `BigInt("0x" + …)` is the identity on naturals. */
  lemma HexStringRoundTrip(n: nat)
    ensures ParseHex(NatToString(n, 16)) == Some(n)
  {
    NatToStringShape(n, 16);
    NatToStringValue(n, 16);
  }

  /** Two lowercase hex digits, high nibble first. */
  function ByteHex(b: byte): string
  {
    [DigitChar(b / 16), DigitChar(b % 16)]
  }

  /** `Buffer.toString("hex")`. */
  function BytesToHex(bs: seq<byte>): (s: string)
    ensures |s| == 2 * |bs|
  {
    if bs == [] then "" else ByteHex(bs[0]) + BytesToHex(bs[1..])
  }

  /** `Buffer.toString("hex")` prints lowercase digits only. */
  lemma {:induction false} HexIsLower(bs: seq<byte>)
    ensures IsLowerHex(BytesToHex(bs))
  {
    if bs != [] {
      HexIsLower(bs[1..]);
      DigitCharValue(bs[0] / 16);
      DigitCharValue(bs[0] % 16);
      var s := BytesToHex(bs);
      forall i | 0 <= i < |s| ensures IsLowerDigit(s[i]) {
        if i >= 2 { assert s[i] == BytesToHex(bs[1..])[i - 2]; }
      }
    }
  }

  /** Decodes an even-length hex string (either case) into bytes, high nibble first. */
  function HexToBytes(s: string): Option<seq<byte>>
    decreases |s|
  {
    if s == [] then Some([])
    else if |s| == 1 || !IsDigitIn(s[0], 16) || !IsDigitIn(s[1], 16) then None
    else
      match HexToBytes(s[2..])
      case None => None
      case Some(rest) => Some([DigitValue(s[0]).value * 16 + DigitValue(s[1]).value] + rest)
  }

  /** Decoding what `Buffer.toString("hex")` printed gives the bytes back. */
  lemma {:induction false} BytesHexRoundTrip(bs: seq<byte>)
    ensures HexToBytes(BytesToHex(bs)) == Some(bs)
  {
    if bs != [] {
      var s := BytesToHex(bs);
      BytesHexRoundTrip(bs[1..]);
      DigitCharValue(bs[0] / 16);
      DigitCharValue(bs[0] % 16);
      assert s[2..] == BytesToHex(bs[1..]);
      assert bs == [bs[0]] + bs[1..];
    }
  }

  /** A lowercase hex string of even length is exactly what its decoded bytes print as. */
  lemma {:induction false} HexBytesRoundTrip(s: string)
    requires IsLowerHex(s) && HexToBytes(s).Some?
    ensures BytesToHex(HexToBytes(s).value) == s
  {
    if s != [] {
      assert IsLowerHex(s[2..]) by {
        forall i | 0 <= i < |s[2..]| ensures IsLowerDigit(s[2..][i]) { assert s[2..][i] == s[i + 2]; }
      }
      HexBytesRoundTrip(s[2..]);
      var b := HexToBytes(s).value[0];
      DigitCharValue(b / 16);
      DigitCharValue(b % 16);
      assert HexToBytes(s).value[1..] == HexToBytes(s[2..]).value;
      assert s == [s[0], s[1]] + s[2..];
    }
  }

  lemma {:induction false} BytesToHexSnoc(bs: seq<byte>, b: byte)
    ensures BytesToHex(bs + [b]) == BytesToHex(bs) + ByteHex(b)
  {
    if bs != [] {
      assert (bs + [b])[1..] == bs[1..] + [b];
      BytesToHexSnoc(bs[1..], b);
    }
  }

  /** Big-endian value of a byte string. */
  function BeValue(bs: seq<byte>): nat
  {
    if bs == [] then 0 else BeValue(bs[..|bs| - 1]) * 256 + bs[|bs| - 1]
  }

  /**
   * `BigInt("0x" + buf.toString("hex"))` is the big-endian value of the buffer, for any
   * non-empty buffer.
   */
  lemma {:induction false} HexOfBytesValue(bs: seq<byte>)
    ensures AllDigits(BytesToHex(bs), 16)
    ensures DigitsValue(BytesToHex(bs), 16) == BeValue(bs)
  {
    if bs != [] {
      var a, b := bs[..|bs| - 1], bs[|bs| - 1];
      assert bs == a + [b];
      HexOfBytesValue(a);
      BytesToHexSnoc(a, b);
      DigitCharValue(b / 16);
      DigitCharValue(b % 16);
      var x := BytesToHex(a);
      var s := BytesToHex(bs);
      assert AllDigits(ByteHex(b), 16);
      AllDigitsConcat(x, ByteHex(b), 16);
      assert s == x + [DigitChar(b / 16), DigitChar(b % 16)];
      assert s[..|s| - 1] == x + [DigitChar(b / 16)];
      assert (x + [DigitChar(b / 16)])[..|x|] == x;
    }
  }
}
