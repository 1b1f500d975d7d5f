/**
 * The per-field error maps of the three forms. Each validator starts from an
 * empty object and records one message per failing field; the form is valid when
 * the object has no keys. Typing into a field blanks that field's message.
 */
module FormErrors {

  /** `Object.keys(errors).length === 0`. */
  predicate NoErrors<K>(errors: map<K, string>)
  {
    |errors| == 0
  }

  /**
   * One check of a validator, `if (failed) errors[key] = message`, where `failed`
   * is the field's test: `!value.trim()` for text, `!value` for the date and hour,
   * and the pattern test for a non-blank email.
   */
  function Require<K>(errors: map<K, string>, key: K, failed: bool, message: string): (r: map<K, string>)
    ensures r.Keys == if failed then errors.Keys + {key} else errors.Keys
    ensures failed ==> r[key] == message
    ensures forall k | k in errors && k != key :: r[k] == errors[k]
  {
    if failed then errors[key := message] else errors
  }

  /** `if (errors[field]) setErrors({...errors, [field]: ''})`: blank that field's message, keep every other one. */
  function ClearError<K>(errors: map<K, string>, field: K): (r: map<K, string>)
    ensures r.Keys == errors.Keys
    ensures field in r ==> r[field] == ""
    ensures forall k | k in errors && k != field :: r[k] == errors[k]
  {
    if field in errors && errors[field] != "" then errors[field := ""] else errors
  }
}
