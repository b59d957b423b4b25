/** Files, and how far a write to one can get. */
module Disk {
  import opened Text

  /** The file cannot be opened, only the first `n` bytes land, or everything lands. */
  datatype Outcome = NotOpened | Torn(n: nat) | Full

  /** A file on disk: absent, or with content. */
  class File {
    var content: Option<string>

    constructor (content: Option<string>)
      ensures this.content == content
    {
      this.content := content;
    }
  }
}
