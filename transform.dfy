/** The transform adapter: the values an attribute can hold, the crypto
    service the trait calls, and the two wrappers (`encrypt`, `decrypt`)
    that turn any exception of that service into a passthrough of the
    input value. */
module Transform {

  /** An attribute value as the trait sees it: PHP's `null`, a string, an
      integer or a boolean. Ciphertext is always a string. */
  datatype Value = Null | Str(text: string) | Int(number: int) | Bool(flag: bool)

  /** The outcome of one call into the crypto service: it either returns a
      result or throws an exception. */
  datatype Attempt<+T> = Returned(result: T) | Threw

  /** The crypto service (`Crypt::encrypt`, `Crypt::decrypt`), left abstract.
      Encryption yields ciphertext, a string; decryption yields the plaintext
      value that was serialised into the ciphertext. Either may throw. */
  datatype Cipher = Cipher(encrypt: Value -> Attempt<string>, decrypt: Value -> Attempt<Value>)

  /** The assumption under which encryption is transparent for `value`:
      the service encrypts it to a non-empty ciphertext and decrypts that
      ciphertext back to `value`. */
  predicate RoundTrips(c: Cipher, value: Value)
  {
    && c.encrypt(value).Returned?
    && c.encrypt(value).result != ""
    && c.decrypt(Str(c.encrypt(value).result)) == Returned(value)
  }

  /** `encrypt`: the service's ciphertext, or, when the service throws,
      the input unchanged. It never throws itself. */
  function Encrypt(c: Cipher, value: Value): (r: Value)
    ensures c.encrypt(value).Returned? ==> r == Str(c.encrypt(value).result)
    ensures c.encrypt(value).Threw? ==> r == value
    ensures r.Str? || r == value
  {
    match c.encrypt(value)
    case Returned(ciphertext) => Str(ciphertext)
    case Threw => value
  }

  /** `decrypt`: the service's plaintext, or, when the service throws
      (malformed payload, wrong key, a value that was never encrypted),
      the input unchanged. It never throws itself. */
  function Decrypt(c: Cipher, value: Value): (r: Value)
    ensures c.decrypt(value).Returned? ==> r == c.decrypt(value).result
    ensures c.decrypt(value).Threw? ==> r == value
  {
    match c.decrypt(value)
    case Returned(plaintext) => plaintext
    case Threw => value
  }

  /** Under the round-trip assumption, decrypting what `Encrypt` produced
      gives back the original value, and that ciphertext is neither null
      nor the empty string. */
  lemma DecryptUndoesEncrypt(c: Cipher, value: Value)
    requires RoundTrips(c, value)
    ensures Encrypt(c, value) != Null && Encrypt(c, value) != Str("")
    ensures Decrypt(c, Encrypt(c, value)) == value
  {
  }
}
