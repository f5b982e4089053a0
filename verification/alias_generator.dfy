/**
 The alias generator: a digest of the URL rendered as lower-case hexadecimal,
 cut down to a fixed-length prefix. The digest itself (SHA-256 over the UTF-8
 bytes of the URL) is not computed here; it is a parameter of every operation
 that needs it, so the model holds for whichever digest function is supplied.
 */
module AliasGenerator {

  predicate IsHexDigit(c: char) {
    ('0' <= c <= '9') || ('a' <= c <= 'f')
  }

  predicate IsHexString(s: string) {
    forall i :: 0 <= i < |s| ==> IsHexDigit(s[i])
  }

  /** Length of a SHA-256 digest written out in hexadecimal. */
  const Sha256HexLength: nat := 64

  /** What `hexdigest()` of a SHA-256 hash object yields: 64 lower-case hex digits. */
  predicate IsSha256Hex(s: string) {
    IsHexString(s) && |s| == Sha256HexLength
  }

  type HexDigest = s: string | IsSha256Hex(s) witness seq(64, _ => '0')

  /** A deterministic SHA-256 digest function, abstracted: any function from
      the input text to a 64-digit lower-case hexadecimal string. */
  type Sha256 = string -> HexDigest

  /** Python's `s[:n]`: the first `n` characters, the whole string when `n`
      exceeds its length, and all but the last `-n` characters when `n` is negative. */
  function PrefixSlice(s: string, n: int): string {
    if n >= 0 then
      (if n <= |s| then s[..n] else s)
    else
      (if -n <= |s| then s[..|s| + n] else [])
  }

  /** `generate_hash` with its algorithm argument fixed to SHA-256: the first
      `hashLength` characters of the hex digest of `input`. */
  function GenerateHash(digest: Sha256, input: string, hashLength: int): (r: string)
    ensures r <= digest(input)
    ensures 0 <= hashLength <= |digest(input)| ==> |r| == hashLength
    ensures hashLength >= |digest(input)| ==> r == digest(input)
    ensures hashLength < 0 ==> |r| + (if -hashLength <= |digest(input)| then -hashLength else |digest(input)|) == |digest(input)|
  {
    PrefixSlice(digest(input), hashLength)
  }

  /** Tokens cut from a SHA-256 digest are hex strings of exactly the requested
      length, for any length up to the digest's 64 characters. */
  lemma Sha256TokenShape(sha256: Sha256, input: string, hashLength: nat)
    requires hashLength <= Sha256HexLength
    ensures |GenerateHash(sha256, input, hashLength)| == hashLength
    ensures IsHexString(GenerateHash(sha256, input, hashLength))
  {
  }
}
