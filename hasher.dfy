/** The streaming digest accumulator: `DynDigest` (update, finalize_reset) in
    lib/, `digest::Digest` (new, update, finalize) in src/, OpenSSL's `Hasher`
    (new, update, finish) in archive-sum/ and `EVP_Digest*` in C. The algorithm
    itself is foreign; the accumulator's observable state is the sequence of
    bytes fed to it since it was created or last reset. */
module Digest {
  import opened Bytes

  class Hasher {
    const algorithm: Algorithm
    /** The bytes fed since construction or the last reset. */
    var fed: seq<Byte>

    /** `Digest::new()`, `Hasher::new(digest)`, `EVP_DigestInit_ex`: an empty accumulator. */
    constructor (algorithm: Algorithm)
      ensures this.algorithm == algorithm && fed == []
    {
      this.algorithm := algorithm;
      fed := [];
    }

    /** `update(bytes)`: appends to what the digest will cover. */
    method Update(data: seq<Byte>)
      modifies this
      ensures fed == old(fed) + data
    {
      fed := fed + data;
    }

    /** `finalize_reset()`: the digest of everything fed since the last reset, and
        the accumulator is left in the same state as a freshly constructed one. */
    method FinalizeReset() returns (d: seq<Byte>)
      modifies this
      ensures d == algorithm(old(fed))
      ensures fed == []
    {
      d := algorithm(fed);
      fed := [];
    }

    /** `finalize()` / `finish()` / `EVP_DigestFinal_ex`: the digest of everything
        fed; the accumulator is not used again afterwards. */
    method Finalize() returns (d: seq<Byte>)
      ensures d == algorithm(fed)
    {
      d := algorithm(fed);
    }
  }
}
