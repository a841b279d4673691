/** Failure-carrying values shared by every module of the model. */
module Wrappers {

  datatype Option<T> = None | Some(value: T) {
    predicate IsFailure() { None? }
    function PropagateFailure<U>(): Option<U> requires None? { None }
    function Extract(): T requires Some? { value }
  }

  /** The outcome of an operation that either returns a value or throws an
      Error whose `message` is `error`. */
  datatype Result<T> = Ok(value: T) | Err(error: string) {
    predicate IsFailure() { Err? }
    function PropagateFailure<U>(): Result<U> requires Err? { Err(error) }
    function Extract(): T requires Ok? { value }
  }
}

/** Octets, and the conversion JavaScript applies when a number is stored
    into a `Uint8Array`. */
module Bytes {

  newtype byte = b: int | 0 <= b < 256

  /** ToUint8 of ECMA-262 on an integral number: the value modulo 2^8.
      Dafny's `%` on `int` is Euclidean, so negative numbers wrap the way
      JavaScript wraps them. */
  function ToUint8(x: int): (b: byte)
    ensures (b as int - x) % 256 == 0
    ensures 0 <= x < 256 ==> b as int == x
  {
    (x % 256) as byte
  }

  /** `new Uint8Array(xs)` for an array of integral numbers. */
  function ToUint8Array(xs: seq<int>): (r: seq<byte>)
    ensures |r| == |xs|
    ensures forall i :: 0 <= i < |xs| ==> r[i] == ToUint8(xs[i])
  {
    seq(|xs|, i requires 0 <= i < |xs| => ToUint8(xs[i]))
  }

  /** `Array.from(u8)`: the octets as plain numbers. */
  function ToNumbers(bs: seq<byte>): (r: seq<int>)
    ensures |r| == |bs|
    ensures forall i :: 0 <= i < |r| ==> 0 <= r[i] < 256 && r[i] == bs[i] as int
  {
    seq(|bs|, i requires 0 <= i < |bs| => bs[i] as int)
  }

  /** Reading numbers back into octets undoes `Array.from`. */
  lemma ToUint8ArrayOfNumbers(bs: seq<byte>)
    ensures ToUint8Array(ToNumbers(bs)) == bs
  {
    assert forall i :: 0 <= i < |bs| ==> ToUint8Array(ToNumbers(bs))[i] == bs[i];
  }
}

/** The record CryptoManager produces and consumes. */
module EncryptedPackage {

  /** `{salt, iv, data, hash, password}`: the octet arrays are held as the
      plain JavaScript numbers `Array.from` makes of them, so a record read
      back from JSON may hold any integer there; `hash` is the hex SHA-256 of
      the plaintext and `password` the password the record was made with. */
  datatype Package = Package(salt: seq<int>, iv: seq<int>, data: seq<int>, hash: string, password: string)
}
