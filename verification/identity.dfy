/** Identity keying: question ids derived from the question text. `Hash` is
    the hex-encoded SHA-256 of the trimmed text; the digest itself is a
    parameter, so nothing here depends on SHA-256 beyond its output being
    64 hexadecimal characters. */
module Identity {
  import opened Text

  /** What `hex.EncodeToString` of a 32-byte digest is: 64 characters. */
  type HexDigest = s: string | |s| == 64
    witness "0000000000000000000000000000000000000000000000000000000000000000"

  /** `Hash(s)`: the digest of the trimmed text. */
  function Hash(digest: string -> HexDigest, s: string): HexDigest
  {
    digest(Trim(s))
  }

  /** Surrounding white space never changes a hash: a text and its trimmed
      form hash alike, and so do two texts that differ only in it. */
  lemma HashIgnoresSurroundingSpace(digest: string -> HexDigest, s: string, t: string)
    ensures Hash(digest, s) == Hash(digest, Trim(s))
    ensures Trim(s) == Trim(t) ==> Hash(digest, s) == Hash(digest, t)
  {
    TrimIdempotent(s);
  }

  /** The CLI id and the id `ConvertToModel` gives: "q_" + Hash(text). */
  function CliId(digest: string -> HexDigest, text: string): (id: string)
    ensures |id| == 66 && id[..2] == "q_" && id[2..] == Hash(digest, text)
  {
    "q_" + Hash(digest, text)
  }

  /** The web id: "q_<user>_" + Hash(text), the user in decimal. */
  function WebId(digest: string -> HexDigest, user: nat, text: string): (id: string)
    ensures |id| == 3 + |Dec(user)| + 64
    ensures id[..2] == "q_" && id[|id| - 64..] == Hash(digest, text)
  {
    "q_" + Dec(user) + "_" + Hash(digest, text)
  }

  /** Texts equal after trimming get the same id. */
  lemma SameTrimmedTextSameIds(digest: string -> HexDigest, user: nat, a: string, b: string)
    requires Trim(a) == Trim(b)
    ensures CliId(digest, a) == CliId(digest, b)
    ensures WebId(digest, user, a) == WebId(digest, user, b)
    ensures Hash(digest, Trim(a)) == Hash(digest, a)
  {
    TrimIdempotent(a);
  }

  /** The parts of "q_" + d + "_" + h can be read back when h has a known
      length. */
  lemma SplitWebId(d1: string, h1: string, d2: string, h2: string)
    requires "q_" + d1 + "_" + h1 == "q_" + d2 + "_" + h2
    requires |h1| == |h2|
    ensures d1 == d2 && h1 == h2
  {
    var id := "q_" + d1 + "_" + h1;
    assert |d1| == |d2|;
    assert id[2..2 + |d1|] == d1;
    assert id[2..2 + |d2|] == d2;
    assert id[|id| - |h1|..] == h1;
    assert id[|id| - |h2|..] == h2;
  }

  /** A web id determines its user and its hash: because the hash has a
      fixed length, the user part can be read back, so no two users ever
      share an id, whatever their texts. */
  lemma WebIdInjective(digest: string -> HexDigest, u1: nat, t1: string, u2: nat, t2: string)
    requires WebId(digest, u1, t1) == WebId(digest, u2, t2)
    ensures u1 == u2 && Hash(digest, t1) == Hash(digest, t2)
  {
    SplitWebId(Dec(u1), Hash(digest, t1), Dec(u2), Hash(digest, t2));
    DecInjective(u1, u2);
  }

  /** The same text imported by two different users gets two different ids. */
  lemma WebIdsSeparateUsers(digest: string -> HexDigest, u1: nat, u2: nat, text: string)
    requires u1 != u2
    ensures WebId(digest, u1, text) != WebId(digest, u2, text)
  {
    if WebId(digest, u1, text) == WebId(digest, u2, text) {
      WebIdInjective(digest, u1, text, u2, text);
    }
  }
}
