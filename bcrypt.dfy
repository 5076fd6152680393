/**
 * The password hashing the register and login handlers delegate to the bcrypt
 * library: hashing at the server's cost factor, and comparing a candidate.
 * The real key-derivation is not modelled: `Hash` is an injective stand-in
 * that, like bcrypt, records its cost and salt inside the digest, and
 * `Matches` re-hashes the candidate with the digest's own cost and salt.
 */
module Bcrypt {

  /** The cost factor the server passes to `bcrypt.hash`. */
  const SALT_ROUNDS: nat := 10

  /** A stored password digest; the salt is drawn at random by `bcrypt.hash`,
      so the model takes it as an input. */
  datatype Digest = Digest(cost: nat, salt: nat, checksum: seq<int>)

  function Hash(password: string, cost: nat, salt: nat): (d: Digest)
    ensures d.cost == cost && d.salt == salt
  {
    Digest(cost, salt, seq(|password|, i requires 0 <= i < |password| => salt + (password[i] as int)))
  }

  /** The library's compare: reads the salt from the stored digest and checks
      the candidate against its checksum character by character. It accepts
      exactly when re-hashing the candidate with the digest's own cost and salt
      reproduces the digest. */
  predicate Matches(password: string, d: Digest)
    ensures Matches(password, d) <==> Hash(password, d.cost, d.salt) == d
  {
    |d.checksum| == |password| &&
    forall i :: 0 <= i < |password| ==> d.checksum[i] == d.salt + (password[i] as int)
  }

  /** A digest accepts exactly the password it was made from, whatever the
      cost and salt. */
  lemma MatchesHash(candidate: string, password: string, cost: nat, salt: nat)
    ensures Matches(candidate, Hash(password, cost, salt)) <==> candidate == password
  {
    var d := Hash(password, cost, salt);
    if Matches(candidate, d) {
      var e := Hash(candidate, cost, salt);
      assert |candidate| == |e.checksum| == |d.checksum| == |password|;
      forall i | 0 <= i < |candidate| ensures candidate[i] == password[i] {
        assert e.checksum[i] == d.checksum[i];
      }
    }
  }
}
