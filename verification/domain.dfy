/**
 * The shared result record, the error kinds and the result wrappers of the
 * scraper (`src/domain.rs`, `src/error.rs`, `src/types.rs`).
 */
module Domain {

  /** Values of Rust's `u8`. */
  type U8 = x: nat | x < 0x100

  /** Values of Rust's `u16`. */
  type U16 = x: nat | x < 0x1_0000

  /** One located subtitle entry. `season` and `episode` use 0 for "not found". */
  datatype SearchResultItem = SearchResultItem(
    index: U16,
    title: string,
    detailsUrl: string,
    season: U16,
    episode: U16
  )

  type SearchResults = seq<SearchResultItem>

  /** The error kinds of the crate; the I/O variant is not modelled. */
  datatype OperationError = Error | HtmlParseError | Authentication

  datatype Option<+T> = None | Some(value: T) {
    function GetOr(default: T): T {
      match this
      case Some(v) => v
      case None => default
    }
  }

  /** `OperationResult<T>`: either a value or one of the crate's errors. */
  datatype Result<+T> = Ok(value: T) | Err(error: OperationError)
}
