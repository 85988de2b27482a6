/** The digest of one block (class Hash in main.cpp): the two algorithm names the
    program accepts and the dispatch from an algorithm name to a digest string.
    The digests themselves (MD5 rendered as hex, CRC-32 rendered as decimal) are
    library code, so they are supplied as the two functions of an `Algorithms`
    value. */
module Hash {

  type Byte = bv8
  type Bytes = seq<Byte>

  const MD5_HASH: string := "md5"
  const CRC32_HASH: string := "crc32"

  /** The hash types the command line may name. */
  const SUPPORTED_HASH_TYPES: set<string> := {MD5_HASH, CRC32_HASH}

  /** The two digest algorithms, each a pure function from a buffer to its text. */
  datatype Algorithms = Algorithms(md5: Bytes -> string, crc32: Bytes -> string)

  predicate IsSupportedHashType(hashType: string): (supported: bool)
    ensures supported <==> hashType in SUPPORTED_HASH_TYPES
  {
    hashType == MD5_HASH || hashType == CRC32_HASH
  }

  /** The digest of `buff` under the algorithm named `hashType`; the empty string
      when the name is neither "md5" nor "crc32". */
  function GetHash(algs: Algorithms, hashType: string, buff: Bytes): (digest: string)
    ensures !IsSupportedHashType(hashType) ==> digest == ""
    ensures hashType == MD5_HASH ==> digest == algs.md5(buff)
    ensures hashType == CRC32_HASH ==> digest == algs.crc32(buff)
  {
    if hashType == MD5_HASH then
      algs.md5(buff)
    else if hashType == CRC32_HASH then
      algs.crc32(buff)
    else
      ""
  }
}
