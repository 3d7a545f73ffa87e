/**
 * Records as the generic store sees them: a record is a plain object, read
 * field by field with `item[field]`, compared with `===`, and merged with the
 * object spread `{...item, ...patch}`.
 */
module Records {

  /** A JavaScript primitive as a field value; `Absent` is `undefined`. */
  datatype Value = Absent | Str(s: string) | Num(n: int) | Bool(b: bool)

  type FieldName = string

  /** A record (or a partial record, a patch) as its own properties. */
  type Record = map<FieldName, Value>

  /** The match test of a regular expression, left abstract. */
  type Pattern = string -> bool

  /** `item[field]`: a missing property reads as `undefined`. */
  function Get(r: Record, f: FieldName): Value
  {
    if f in r then r[f] else Absent
  }

  /**
   * The shallow merge `{...item, ...patch}`: every property of the patch
   * overrides, every other property keeps its old value.
   */
  function Merge(item: Record, patch: Record): (m: Record)
    ensures m.Keys == item.Keys + patch.Keys
    ensures forall f :: f in patch ==> Get(m, f) == patch[f]
    ensures forall f :: f !in patch ==> Get(m, f) == Get(item, f)
  {
    item + patch
  }

  /** The predicate of `item => item[field] === value`. */
  function FieldEquals(f: FieldName, v: Value): Record -> bool
  {
    r => Get(r, f) == v
  }

  /**
   * The predicate of the `find` callback in `getItemByRegex`: a string field
   * is tested against the pattern, any other value never matches.
   */
  function FieldMatches(f: FieldName, pattern: Pattern): Record -> bool
  {
    r => Get(r, f).Str? && pattern(Get(r, f).s)
  }
}
