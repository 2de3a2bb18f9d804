/** Blob contents and their `sha256:` digests.
    SHA-256 itself is a parameter: every result holds of every function that maps contents to
    well-formed digest strings and sends the empty config `{}` to its published digest. */
module Digests {

  type byte = x: int | 0 <= x < 256
  type Content = seq<byte>

  const DIGEST_PREFIX := "sha256:"

  predicate IsLowerHex(c: char) {
    '0' <= c <= '9' || 'a' <= c <= 'f'
  }

  predicate AllLowerHex(s: string) {
    forall c | c in s :: IsLowerHex(c)
  }

  /** `valid_digest`: the prefix and 64 lower-case hexadecimal digits. */
  predicate ValidDigest(s: string) {
    DIGEST_PREFIX <= s && |s| == |DIGEST_PREFIX| + 64 && AllLowerHex(s[|DIGEST_PREFIX|..])
  }

  const EMPTY_CONFIG: Content := [0x7b, 0x7d]
  const EMPTY_CONFIG_HEX :=
    "44136fa355b3678a" + "1146ad16f7e8649e" + "94fb4fc21fe77e83" + "10c060f61caaff8a"
  const EMPTY_CONFIG_DIGEST := DIGEST_PREFIX + EMPTY_CONFIG_HEX

  lemma EmptyConfigDigestValid()
    ensures ValidDigest(EMPTY_CONFIG_DIGEST)
  {
    assert AllLowerHex("44136fa355b3678a");
    assert AllLowerHex("1146ad16f7e8649e");
    assert AllLowerHex("94fb4fc21fe77e83");
    assert AllLowerHex("10c060f61caaff8a");
    assert EMPTY_CONFIG_DIGEST[|DIGEST_PREFIX|..] == EMPTY_CONFIG_HEX;
  }

  /** Shows that the assumptions on a digest function can be met. */
  function ConstantDigest(b: Content): (d: string)
    ensures ValidDigest(d) && d == EMPTY_CONFIG_DIGEST
  {
    EmptyConfigDigestValid();
    EMPTY_CONFIG_DIGEST
  }

  type Digester = f: Content -> string |
      (forall b :: ValidDigest(f(b))) && f(EMPTY_CONFIG) == EMPTY_CONFIG_DIGEST
    witness ConstantDigest

  /** No two contents of this finite set share a digest. Injectivity on all contents would be
      unsatisfiable, so results that need it name the contents that occur. */
  ghost predicate CollisionFree(sha: Digester, universe: set<Content>) {
    forall a, b | a in universe && b in universe && sha(a) == sha(b) :: a == b
  }
}
