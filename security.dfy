/** Stand-ins for the foreign calls of backend/core/security.py: bcrypt
    hashing and verification, and JSON Web Token creation. */
module Security {

  /** The tag every stored hash starts with. */
  const HashTag := "$2b$"

  /** bcrypt looks at no more than this many leading bytes of a password. */
  const MaxPasswordLength := 72

  /** The part of a password that bcrypt hashes: its first `MaxPasswordLength`
      characters. */
  function Significant(password: string): (s: string)
    ensures |s| <= MaxPasswordLength && s <= password
    ensures |password| <= MaxPasswordLength ==> s == password
    ensures |password| > MaxPasswordLength ==> |s| == MaxPasswordLength
  {
    if |password| <= MaxPasswordLength then password else password[..MaxPasswordLength]
  }

  /** Stand-in for bcrypt hashing. Real bcrypt salts each hash; the model
      keeps what the handlers rely on: a hash is never empty, and it
      depends on the significant part of the password only. */
  function Hash(password: string): (h: string)
    ensures h != ""
  {
    HashTag + Significant(password)
  }

  /** Stand-in for bcrypt verification of a plain password against a stored hash. */
  predicate Verify(password: string, hash: string)
  {
    hash == Hash(password)
  }

  /** Verification accepts exactly the passwords that agree with the hashed
      one on their significant part. */
  lemma VerifyExactlyHashed(password: string, other: string)
    ensures Verify(other, Hash(password)) <==> Significant(other) == Significant(password)
    ensures |password| <= MaxPasswordLength && |other| <= MaxPasswordLength ==>
              (Verify(other, Hash(password)) <==> other == password)
  {
    if Verify(other, Hash(password)) {
      assert Significant(other) == Hash(other)[|HashTag|..];
      assert Significant(password) == Hash(password)[|HashTag|..];
    }
  }

  /** The claims of an issued access token; the expiry claim, computed from
      the wall clock, is not modelled and the signature is opaque. */
  datatype AccessToken = AccessToken(sub: string)

  function CreateAccessToken(username: string): (t: AccessToken)
    ensures t.sub == username
  {
    AccessToken(username)
  }
}
