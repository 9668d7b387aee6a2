/** Field types, field values and tuples, compared by equality only. */
module Tuples {

  datatype Type = IntType | StringType

  /** `IntField` and `StringField` (a string with its declared maximum length). */
  datatype Field = IntField(value: int) | StringField(text: string, maxSize: int)

  datatype Tuple = Tuple(fields: seq<Field>)
}
