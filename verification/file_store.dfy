/**
  The part of the filesystem the note tools see, as an immutable value.
  Every path is relative to the fixed base directory: a note lives at
  `base/dir/filename.format`, so it is addressed by its directory and the
  file name `filename + "." + format`.
 */
module FileStore {
  import opened Newlines

  datatype Option<+T> = None | Some(value: T)

  /** What a note file holds: text, or bytes that do not decode as UTF-8. */
  datatype Content = Text(chars: string) | Undecodable

  datatype Path = Path(dir: string, name: string)

  /** The directories that exist under the base directory, and the note files. */
  datatype Store = Store(dirs: set<string>, files: map<Path, Content>)

  /** How a text-mode read treats line endings: `Translate` is what the tools
      do (universal newlines); `Preserve` returns the stored characters as they are. */
  datatype Newline = Translate | Preserve

  /** The arguments the tools use when the caller leaves them out. */
  const DefaultMode: Option<string> := Some("a")
  const DefaultFormat: string := "txt"
  const DefaultDir: string := "Personal-notes-server"

  /** A file can only exist inside an existing directory. */
  predicate Valid(s: Store)
  {
    forall p :: p in s.files ==> p.dir in s.dirs
  }

  /** The file name a `(filename, format)` pair resolves to. */
  function FileName(filename: string, format: string): string
  {
    filename + "." + format
  }

  function Lookup(s: Store, p: Path): Option<Content>
  {
    if p in s.files then Some(s.files[p]) else None
  }

  /** The text a UTF-8 text-mode read returns, or `None` when decoding fails. */
  function Decode(c: Content, nl: Newline): Option<string>
  {
    match c
    case Undecodable => None
    case Text(t) => if nl == Translate then Some(Universal(t)) else Some(t)
  }
}
