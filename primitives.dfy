/**
 * The foreign code the server calls, as uninterpreted functions handed to every operation
 * that needs them: Poseidon from cipherpay-sdk, SHA-256 from node:crypto (section 6.2 of
 * FIPS 180-4), Baby Jubjub EdDSA `verifyPoseidon` from circomlibjs, and Node's base64
 * decoder. Nothing about their internals is modelled; only that each is a function.
 */
module Primitives {
  import opened Hex

  /** 32 bytes: a SHA-256 digest, or the output of `crypto.randomBytes(32)`. */
  type Bytes32 = s: seq<byte> | |s| == 32 witness seq(32, (_: int) => 0 as byte)

  /** A point of the Baby Jubjub curve given by its two coordinates. */
  datatype Point = Point(x: int, y: int)

  datatype Crypto = Crypto(
    /** `poseidonHash(inputs)`: a field element. */
    poseidon: seq<int> -> nat,
    /** `createHash("sha256").update(buf).digest()`. */
    sha256: seq<byte> -> Bytes32,
    /** `eddsa.verifyPoseidon(message, { R8, S }, publicKey)`, arguments in that order. */
    verifyPoseidon: (int, Point, int, Point) -> bool,
    /** `Buffer.from(text, "base64")`, which never throws. */
    base64: string -> seq<byte>)
}
