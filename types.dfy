// The values that storage and aggregation exchange: fields, tuples, page and
// record identifiers, and the exceptions the operations raise.
module Types {
  import opened JavaInt

  datatype Option<+T> = None | Some(value: T)

  /** The exceptions the modelled operations throw, named after the Java classes. */
  datatype Error =
    | IllegalArgumentException
    | NoSuchElementException
    | DbException
    | NullPointerException
    | IOException

  /** A returned value, or the exception thrown instead. */
  datatype Result<+T> = Ok(value: T) | Err(error: Error)

  /** A field value: an `IntField` or a `StringField`. */
  datatype Field = IntField(i: int32) | StringField(s: string)

  /** The type of a field in a schema. */
  datatype FieldType = IntType | StringType

  /** A table id (derived from the backing file) and a zero-based page number. */
  datatype PageId = PageId(tableId: int32, pageNumber: int32)

  /** Where a stored tuple lives: its page and its slot within that page. */
  datatype RecordId = RecordId(pid: PageId, slot: int)

  /** A row of field values with the record id of the slot it was read from, if any. */
  datatype Tuple = Tuple(fields: seq<Field>, rid: Option<RecordId>)
}
