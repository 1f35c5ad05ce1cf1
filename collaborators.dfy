/**
  The libraries the identity code calls but whose code is not part of this model: bcrypt
  (`hash`, `compare`) and jsonwebtoken (`sign`, `verify`). Each is a record of functions that the
  caller supplies; the only facts assumed about them are the ones the code relies on, stated as the
  ghost predicates below and required by the lemmas that need them.
*/
module Collaborators {
  import opened Wrappers

  /** bcrypt: a one-way hash and the comparison of a plaintext with a stored hash. */
  datatype Hasher = Hasher(hash: string -> string, compare: (string, string) -> bool)

  /** A plaintext always compares equal to its own hash. Nothing else is assumed: not even that a
      different plaintext compares unequal. */
  ghost predicate HasherSound(h: Hasher) {
    forall p :: h.compare(p, h.hash(p))
  }

  /** jsonwebtoken over claims of type `C`: `sign(secret, claims, exp)` and
      `verify(secret, token, now)`, with times in seconds. */
  datatype Jwt<!C> = Jwt(sign: (string, C, int) -> string, verify: (string, string, int) -> Option<C>)

  /** A token signed with a secret verifies under that secret, giving back its claims, until its
      expiry time; from then on it is rejected as expired. Nothing is assumed about tokens that were
      not signed with the secret, nor that two different signings give two different tokens. */
  ghost predicate JwtSound<C(!new)>(j: Jwt<C>) {
    forall secret, claims, exp, now ::
      j.verify(secret, j.sign(secret, claims, exp), now) == if now < exp then Some(claims) else None
  }
}
