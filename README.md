# Encryptable database attributes, modelled in Dafny

This project models the `EncryptableDbAttribute` trait from
betterapp/laravel-db-encrypter. The trait can be mixed into an Eloquent model. Its
fields named in `$this->encryptable` are then stored encrypted in the
model's attribute bag and read back decrypted. It overrides three attribute
operations:

- `getAttribute` decrypts the value it reads for an encryptable key, unless
  that value is null or the empty string.
- `setAttribute` encrypts any non-null value written to an encryptable key.
  Only null is exempt, so the empty string is encrypted.
- `attributesToArray` decrypts, in the exported copy of the attributes,
  every entry that `getAttribute` would decrypt.

Two private wrappers, `encrypt` and `decrypt`, call Laravel's `Crypt`
facade. They swallow any exception and hand back the input unchanged.

Files:

- `transform.dfy` (module `Transform`) holds the attribute values
  (`Null`, strings, integers, booleans) and the crypto service. The service
  is left abstract: a pair of total functions that either return a result
  or throw. The module also holds the two failure-swallowing wrappers and
  `RoundTrips`. That predicate is the assumption under which encryption is
  transparent: the service encrypts the value to a non-empty ciphertext and
  decrypts that ciphertext back to the value.
- `encryptable_db_attribute.dfy` (module `EncryptableDbAttribute`) holds
  the class `Entity`. Its fields are the immutable `encryptable` set, the
  crypto service and the mutable attribute bag, a `map<string, Value>`.
  Reads are functions. `SetAttribute` is a method that updates the bag.
  `AttributesToArray` is a method whose loop rewrites a copy of the bag.
  It has no `modifies` clause, so the verifier also establishes that it
  leaves the bag unchanged.

The parent Eloquent pipeline is modelled as the identity:

- its `getAttribute` is a lookup that yields null for an absent key;
- its `setAttribute` is a map update;
- its `attributesToArray` is a copy of the bag.

The crypto service is a parameter of the entity (`crypt`). Hydrating an
entity from storage is the constructor: it puts stored values into the bag
without going through the setter. This is how legacy, never-encrypted
values arrive.

## Model

| member | source | states |
|---|---|---|
| `Transform.Encrypt` | src/Traits/EncryptableDbAttribute.php:74-81 | On success, the result is the service's ciphertext as a string. When the service throws, the input comes back unchanged. The wrapper itself never throws. |
| `Transform.Decrypt` | src/Traits/EncryptableDbAttribute.php:88-95 | On success, the result is the service's plaintext. When the service throws (malformed payload, wrong key, a value that was never encrypted), the input comes back unchanged. |
| `Transform.DecryptUndoesEncrypt` | src/Traits/EncryptableDbAttribute.php:74-95 | Assume the service round-trips the value. Then the wrapper's ciphertext is neither null nor `''`, and decrypting it gives back the value. |
| `EncryptableDbAttribute.Entity.Read` | src/Traits/EncryptableDbAttribute.php:23-27 | This is the read gate shared by both read paths. A non-encryptable key, a null value or `''` passes through unchanged. Any other value becomes the service's plaintext, or stays verbatim when decryption throws. |
| `EncryptableDbAttribute.Entity.StoredForm` | src/Traits/EncryptableDbAttribute.php:38-44 | This is the write gate. Null, or a non-encryptable key, is stored unchanged. Any other value, `''` included, is stored as the service's ciphertext, or unchanged when encryption throws. |
| `EncryptableDbAttribute.Entity.GetAttribute` | src/Traits/EncryptableDbAttribute.php:19-28 | An absent key reads as null. For a non-encryptable key, the result is exactly the parent's value. A null or `''` value is returned unchanged. Any other value of an encryptable key is decrypted. |
| `EncryptableDbAttribute.Entity.SetAttribute` | src/Traits/EncryptableDbAttribute.php:36-45 | The bag afterwards is the old bag with only `key` rebound to the value's stored form. Every other entry is unchanged. The entity itself is returned for chaining. |
| `EncryptableDbAttribute.Entity.AttributesToArray` | src/Traits/EncryptableDbAttribute.php:50-67 | The result has the same keys as the bag. An entry of a non-encryptable key, or whose value is null or `''`, is unchanged; every other entry is decrypted. Each entry equals what `GetAttribute` returns for that key. An empty bag gives an empty result. The bag is not modified. |
| `EncryptableDbAttribute.Entity.AttributesToArrayTwice` | src/Traits/EncryptableDbAttribute.php:52-66 | Two exports with no write in between are equal, and neither changes the bag. |
| `EncryptableDbAttribute.Entity.RoundTrip` | src/Traits/EncryptableDbAttribute.php:19-45 | Take an encryptable key and a non-null value, `''` included, that the service round-trips. The stored form is the ciphertext, and reading it back yields the value. |
| `EncryptableDbAttribute.Entity.SetThenGet` | src/Traits/EncryptableDbAttribute.php:19-45 | This is the round trip on a live entity. Under the same assumption, `getAttribute(k)` right after `setAttribute(k, v)` returns `v`, and the bag holds the ciphertext. |
| `EncryptableDbAttribute.Entity.NullRoundTrip` | src/Traits/EncryptableDbAttribute.php:38-39 | Writing null stores null. Reading it back gives null whatever the service does, because neither path calls the service. |
| `EncryptableDbAttribute.Entity.EmptyStringRoundTrip` | src/Traits/EncryptableDbAttribute.php:23-44 | Write `''` to an encryptable key, then read it back. The result is `''` when the service either round-trips `''` or throws on encrypting it. |

## Left out

- Laravel's `Crypt` internals are not modelled: the cipher, MAC, payload encoding, value serialisation and keys. The service is an abstract pair of functions that return or throw.
- The parent Eloquent pipeline is not modelled: casts, accessors and mutators, dates, appends, JSON paths, enum and class castables, and the setter's precedence chain. This includes the parent's early null return for a falsy key such as `"0"`, and its missing-attribute exceptions in strict mode. It is the identity described above.
- `in_array` compares loosely in PHP. The model tests exact membership in a set of strings. The two differ only for numeric-string keys such as `"1"` and `"01"`.
- Attribute arrays are ordered in PHP; the bag here is a `map`. `attributesToArray` only reassigns existing keys, so it does not change the order, but the model does not state order.
- PHP arrays turn integer-like string keys into integers. That is not modelled.
- Values are null, strings, integers and booleans. Floats, arrays and objects are not modelled.
- Transform.Encrypt: when the service throws, a non-string input is returned as it is. PHP coerces it to a string through the declared `: string` return type; that coercion is not modelled.
- The wrappers catch only a thrown `Exception`. PHP `Error`s (for example a `TypeError`) are not caught by the trait and are not modelled.
- Persistence, queries and concurrency are not modelled. The trait has none of its own.
