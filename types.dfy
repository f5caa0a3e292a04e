/** Values shared by the whole task-persistence layer: optional values, the
    error kinds the layer reports, and the opaque identifiers and clock
    readings that the model receives as inputs. */
module Types {

  datatype Option<+T> = None | Some(value: T)

  /** The error kinds of `RusticError` that the modelled core can produce. */
  datatype Error =
    | CsvError         // a stored line does not deserialise
    | DateParserError  // a due date does not match `%Y-%m-%dT%H:%M:%S%z`
    | HashingError     // the hasher failed, or a stored hash does not parse
    | IoError          // the file cannot be opened
    | RegexError       // the e-mail pattern does not compile
    | AuthorExists     // an author with the same e-mail is already stored
    | InvalidEmail     // the e-mail does not match the pattern

  datatype Result<+T> = Ok(value: T) | Err(error: Error)

  /** Rust's `u32`, the type of a priority code. */
  newtype u32 = x: int | 0 <= x < 0x1_0000_0000

  /** A 128-bit UUID, drawn at random by `Uuid::new_v4` in the source. */
  newtype Uuid = x: int | 0 <= x < 0x1_0000_0000_0000_0000_0000_0000_0000_0000

  /** A `DateTime<Local>` reading: an instant and the local UTC offset. */
  datatype Timestamp = Timestamp(epochNanos: int, offsetSeconds: int)
}
