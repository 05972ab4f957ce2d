/** Names shared by every component of the global-table core. */
module Types {

  /** A region is identified by its name; regions are compared by value. */
  type Region = string

  /** The value of an item's primary-key attribute. */
  type Key = string

  type TableName = string

  /** A value that may be absent (Java's null). */
  datatype Option<+T> = None | Some(value: T)
}
