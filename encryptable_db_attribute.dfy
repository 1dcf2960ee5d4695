/** The attribute interceptor: an entity whose fields named in
    `encryptable` are stored encrypted in its attribute bag and read back
    decrypted, through the three overridden attribute operations. The
    underlying attribute pipeline is the identity: its get is a lookup that
    yields null for an absent key, its set is a map update, and its
    export is a copy of the bag. */
module EncryptableDbAttribute {
  import opened Transform

  class Entity {
    /** The field names configured as encryptable; fixed for the entity. */
    const encryptable: set<string>
    /** The crypto service the entity calls. */
    const crypt: Cipher
    /** The attribute bag, as held in memory and written to storage. */
    var attributes: map<string, Value>

    /** An entity hydrated from storage: `stored` is written into the bag
        as it is, without passing through the setter. */
    constructor (encryptable: set<string>, crypt: Cipher, stored: map<string, Value>)
      ensures this.encryptable == encryptable && this.crypt == crypt
      ensures attributes == stored
    {
      this.encryptable := encryptable;
      this.crypt := crypt;
      attributes := stored;
    }

    /** The read-side gate, shared by `getAttribute` and
        `attributesToArray`: a value is decrypted only when its key is
        encryptable and it is neither null nor the empty string. */
    predicate DecryptsOnRead(key: string, value: Value)
    {
      key in encryptable && value != Null && value != Str("")
    }

    /** The write-side gate: only null is exempt, so the empty string is
        encrypted on write. */
    predicate EncryptsOnWrite(key: string, value: Value)
    {
      value != Null && key in encryptable
    }

    /** What a read of `key` yields when the pipeline hands over `value`. */
    function Read(key: string, value: Value): (r: Value)
      ensures key !in encryptable ==> r == value
      ensures value == Null || value == Str("") ==> r == value
      ensures DecryptsOnRead(key, value) && crypt.decrypt(value).Returned? ==>
                r == crypt.decrypt(value).result
      ensures crypt.decrypt(value).Threw? ==> r == value
    {
      if !DecryptsOnRead(key, value) then value else Decrypt(crypt, value)
    }

    /** What a write of `value` to `key` hands on to the pipeline. */
    function StoredForm(key: string, value: Value): (r: Value)
      ensures value == Null || key !in encryptable ==> r == value
      ensures EncryptsOnWrite(key, value) && crypt.encrypt(value).Returned? ==>
                r == Str(crypt.encrypt(value).result)
      ensures crypt.encrypt(value).Threw? ==> r == value
    {
      if !EncryptsOnWrite(key, value) then value else Encrypt(crypt, value)
    }

    /** The pipeline's own read of `key`: the stored value, null when absent. */
    function ParentGet(key: string): Value
      reads this
    {
      if key in attributes then attributes[key] else Null
    }

    /** `getAttribute`: the pipeline's value, decrypted when the read gate
        lets it through; it has no effect on the bag. */
    function GetAttribute(key: string): (r: Value)
      reads this
      ensures key !in attributes ==> r == Null
      ensures key !in encryptable ==> r == ParentGet(key)
      ensures ParentGet(key) == Null || ParentGet(key) == Str("") ==> r == ParentGet(key)
      ensures DecryptsOnRead(key, ParentGet(key)) ==> r == Decrypt(crypt, ParentGet(key))
    {
      var value := ParentGet(key);
      Read(key, value)
    }

    /** The pipeline's own write: the bag entry for `key` becomes `value`. */
    method ParentSetAttribute(key: string, value: Value)
      modifies this
      ensures attributes == old(attributes)[key := value]
    {
      attributes := attributes[key := value];
    }

    /** `setAttribute`: writes the stored form of `value` under `key` and
        touches no other entry; returns the entity for chaining. */
    method SetAttribute(key: string, value: Value) returns (self: Entity)
      modifies this
      ensures self == this
      ensures attributes == old(attributes)[key := StoredForm(key, value)]
      ensures forall k :: k in old(attributes) && k != key ==> k in attributes && attributes[k] == old(attributes)[k]
    {
      if value == Null || key !in encryptable {
        ParentSetAttribute(key, value);
        return this;
      }
      var encrypted := Encrypt(crypt, value);
      ParentSetAttribute(key, encrypted);
      return this;
    }

    /** `attributesToArray`: a copy of the bag in which every entry the read
        gate lets through is decrypted. It leaves the bag itself unchanged
        (it modifies nothing), and each entry agrees with `GetAttribute`. */
    method AttributesToArray() returns (result: map<string, Value>)
      ensures result.Keys == attributes.Keys
      ensures forall k :: k in attributes && !DecryptsOnRead(k, attributes[k]) ==> result[k] == attributes[k]
      ensures forall k :: k in attributes && DecryptsOnRead(k, attributes[k]) ==> result[k] == Decrypt(crypt, attributes[k])
      ensures forall k :: k in result ==> result[k] == GetAttribute(k)
      ensures attributes == map[] ==> result == map[]
    {
      var snapshot := attributes;
      result := snapshot;
      if |snapshot| == 0 {
        return;
      }
      var pending := snapshot.Keys;
      while pending != {}
        invariant pending <= snapshot.Keys
        invariant result.Keys == snapshot.Keys
        invariant forall k :: k in pending ==> result[k] == snapshot[k]
        invariant forall k :: k in snapshot && k !in pending ==> result[k] == Read(k, snapshot[k])
        decreases pending
      {
        var key :| key in pending;
        var value := snapshot[key];
        if DecryptsOnRead(key, value) {
          result := result[key := Decrypt(crypt, value)];
        }
        pending := pending - {key};
      }
    }

    /** Two exports with no write in between give equal results. */
    method AttributesToArrayTwice() returns (first: map<string, Value>, second: map<string, Value>)
      ensures first == second
      ensures first.Keys == attributes.Keys
    {
      first := AttributesToArray();
      second := AttributesToArray();
      assert forall k :: k in first ==> first[k] == second[k];
    }

    /** A write followed by a read on the same entity returns what was
        written, for an encryptable field and a value the service
        round-trips. */
    method SetThenGet(key: string, value: Value) returns (read: Value)
      requires key in encryptable && value != Null
      requires RoundTrips(crypt, value)
      modifies this
      ensures read == value
      ensures attributes == old(attributes)[key := Encrypt(crypt, value)]
    {
      var _ := SetAttribute(key, value);
      read := GetAttribute(key);
      RoundTrip(key, value);
    }

    /** Round trip: for an encryptable key and a non-null value (the empty
        string included) that the service round-trips, reading back the
        stored form yields the value. */
    lemma RoundTrip(key: string, value: Value)
      requires key in encryptable && value != Null
      requires RoundTrips(crypt, value)
      ensures StoredForm(key, value) == Str(crypt.encrypt(value).result)
      ensures Read(key, StoredForm(key, value)) == value
    {
      DecryptUndoesEncrypt(crypt, value);
    }

    /** Writing null stores null, and reading it back yields null, whatever
        the service does. */
    lemma NullRoundTrip(key: string)
      ensures StoredForm(key, Null) == Null
      ensures Read(key, StoredForm(key, Null)) == Null
    {
    }

    /** Writing the empty string to an encryptable key and reading it back
        yields the empty string when the service either encrypts it
        faithfully or throws; only the write side calls the service. */
    lemma EmptyStringRoundTrip(key: string)
      requires key in encryptable
      requires crypt.encrypt(Str("")).Threw? || RoundTrips(crypt, Str(""))
      ensures Read(key, StoredForm(key, Str(""))) == Str("")
    {
      if crypt.encrypt(Str("")).Threw? {
        assert StoredForm(key, Str("")) == Str("");
      } else {
        RoundTrip(key, Str(""));
      }
    }
  }
}
