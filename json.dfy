/**
 * The parsed JSON values the validator and the renderer look at.
 *
 * A student record is a JSON object, modelled as a map from key to value.
 * Only the keys the validator reads are kept (`name`, `website`, `year`,
 * `about`); any other key of the object is never looked at by it. Reading a key the object does not have gives
 * `Undefined`, exactly as `entry[field]` does in JavaScript; `Null` is an
 * explicit JSON `null`.
 * Numbers are split into integers (what `Number.isInteger` accepts) and every
 * other number, so that no floating point is needed.
 */
module Json {
  datatype Value =
    | Undefined
    | Null
    | Str(s: string)
    | Int(i: int)
    | NonIntNumber
    | Other      // booleans, arrays and nested objects

  /** The keys of a student record that the validator reads. */
  datatype Field = Name | Website | Year | About

  type Entry = map<Field, Value>

  /** `entry[key]`: the value stored under `key`, or `Undefined` when there is none. */
  function Get(e: Entry, key: Field): Value
  {
    if key in e then e[key] else Undefined
  }
}
