/** Bytes and byte-sequence prefixes: a Node `Buffer` is modelled as `seq<byte>`. */
module Bytes {

  /** An octet, as a Node `Buffer` element reads. */
  newtype byte = x: int | 0 <= x < 256

  /** `b` begins with the bytes of `sig`. */
  predicate HasPrefix(b: seq<byte>, sig: seq<byte>)
  {
    |sig| <= |b| && b[..|sig|] == sig
  }

  /** `b` holds the bytes of `sig` starting at offset `at`. */
  predicate HasAt(b: seq<byte>, at: nat, sig: seq<byte>)
  {
    at + |sig| <= |b| && b[at..at + |sig|] == sig
  }
}
