/**
 * The repository record that the collector writes into the snapshot file and
 * that the browser catalogue reads back from it.
 */
module Records {

  /** A value that may be missing (JSON `null`). */
  datatype Option<+T> = None | Some(value: T)

  /**
   * One catalogued repository. `updatedAt` stands for the ISO-8601
   * `updated_at` string as the instant it denotes (seconds since the epoch).
   */
  datatype Record = Record(
    name: string,
    url: string,
    description: Option<string>,
    stars: nat,
    language: Option<string>,
    updatedAt: int,
    cursorrulesUrl: string)

  /** JavaScript truthiness of an optional string: present and non-empty. */
  predicate Truthy(s: Option<string>)
  {
    s.Some? && s.value != ""
  }
}
