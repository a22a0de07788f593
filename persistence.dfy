/**
 * The backing file `students.ser`, seen as the list of records it holds.
 * The serialization format itself is not modelled; what the file holds after
 * a write is decided by how the write went, passed in as an outcome.
 */
module Persistence {
  import opened Students

  /** What the file holds: nothing, something that does not deserialize, or a list of records. */
  datatype FileState = Missing | Unreadable | Stored(records: seq<Record>)

  /** How an attempt to write the whole list went. */
  datatype WriteOutcome =
    | Written      // the stream was opened, written and closed
    | OpenFailed   // the file could not be opened for writing: it is untouched
    | WriteFailed  // opening truncated the file, then writing failed part way

  /** The file after `save()` tries to write `rs` over `before`. */
  function AfterSave(before: FileState, io: WriteOutcome, rs: seq<Record>): FileState
  {
    match io
    case Written => Stored(rs)
    case OpenFailed => before
    case WriteFailed => Unreadable
  }

  /** The file a `StudentManager` reads and writes. */
  class BackingFile {
    var content: FileState

    constructor (content: FileState)
      ensures this.content == content
    {
      this.content := content;
    }
  }
}
