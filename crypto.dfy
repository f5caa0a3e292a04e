/** Password hashing and verification of the author utilities. The Argon2
    primitive is not modelled: it enters as a `Hasher`, three functions the
    model does not look inside, and the salt that the source draws from the
    operating system's random source is an input. */
module Crypto {
  import opened Types

  datatype Hasher = Hasher(
    /** `hash_password`: the encoded hash string, or `None` when the
        primitive rejects its input. */
    hash: (string, string) -> Option<string>,
    /** `PasswordHash::new` succeeds on this string. */
    wellFormed: string -> bool,
    /** The digest recomputed from the password matches the encoded one. */
    matches: (string, string) -> bool)

  /** The assumption the model makes of the primitive: every hash it
      produces parses and verifies against the password it came from. */
  ghost predicate Sound(h: Hasher) {
    forall password, salt :: h.hash(password, salt).Some? ==>
      h.wellFormed(h.hash(password, salt).value) && h.matches(password, h.hash(password, salt).value)
  }

  /** `encrypt_password`: the encoded hash, or `HashingError` when the
      primitive fails. */
  function EncryptPassword(h: Hasher, password: string, salt: string): (r: Result<string>)
    ensures r.Ok? <==> h.hash(password, salt).Some?
    ensures r.Ok? ==> r.value == h.hash(password, salt).value
    ensures r.Err? ==> r.error == HashingError
  {
    match h.hash(password, salt)
    case Some(encoded) => Ok(encoded)
    case None => Err(HashingError)
  }

  /** `verify_password`: an error only when the stored string is not an
      encoded hash; a wrong password is `Ok(false)`, not an error. */
  function VerifyPassword(h: Hasher, password: string, stored: string): (r: Result<bool>)
    ensures r.Err? <==> !h.wellFormed(stored)
    ensures r.Err? ==> r.error == HashingError
    ensures r.Ok? ==> (r.value <==> h.matches(password, stored))
  {
    if !h.wellFormed(stored) then Err(HashingError)
    else Ok(h.matches(password, stored))
  }

  /** Under `Sound`, a password verifies against its own hash. */
  lemma VerifyOwnHash(h: Hasher, password: string, salt: string)
    requires Sound(h)
    requires EncryptPassword(h, password, salt).Ok?
    ensures VerifyPassword(h, password, EncryptPassword(h, password, salt).value) == Ok(true)
  {
  }
}
