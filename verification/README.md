# Note store model

A Dafny model of the notes server in `main.py`. The server offers four tools
over plain-text note files kept at `base/dir/filename.format`:

- `create_note` appends to a note or overwrites it, and creates the directory first when it is missing.
- `delete_chunk` removes the characters in the half-open range `[start, end)`.
- `read_note` returns a note's text.
- `list_notes` returns the sorted names of a directory's notes.

The filesystem is an immutable value, `FileStore.Store`. It holds the set of
existing directories and a map from `Path(dir, filename + "." + format)` to
the file's content. Paths are relative to the fixed base directory. The
content is text, or `Undecodable` for bytes that are not valid UTF-8. Reading
such a file raises an exception, which is the modelled source of the error
replies of `read_note` and `delete_chunk`.

Each tool is a pure function or method. It returns a tagged reply with one
case per message the tool can produce, plus the new store when the tool can
change files. `read_note` and `list_notes` take the store but never return
one, so they cannot change it.

The tools' default arguments (mode "a", format "txt", directory
"Personal-notes-server") are the constants `FileStore.DefaultMode`,
`FileStore.DefaultFormat` and `FileStore.DefaultDir`. The modelled operations
take every argument explicitly, and a caller that omits one passes the
constant.

Offsets in `delete_chunk` are character positions in the decoded text,
because the code slices a decoded `str`. Dafny's `char` is a Unicode scalar
value, so a Dafny string's length is Python's `len`. Some descriptions of
this tool speak of byte offsets instead. The model follows the code.

Python's text-mode read, with its default newline handling, turns `"\r\n"`
and a lone `"\r"` into `"\n"`. Text-mode writes on a POSIX system keep
characters as they are. Each reading operation therefore takes a `Newline`
parameter:

- `Translate` is the code as written.
- `Preserve` is the exact read the tools evidently intend, as with `open(..., newline="")`.

The validation order, "no change on error", the splice and the listing
properties are proved for both settings. The read-back round trips hold only
for `Preserve` and are stated for it (see Findings).

Modules:

- `FileStore`: the store, paths and decoding.
- `Newlines`: the universal-newline translation.
- `Notes`: `create_note`, `delete_chunk` and `read_note`, with the lemmas that relate them.
- `Listing`: `list_notes`.
- `Lexicographic`: Python's string order and the insertion sort that `sorted` stands for.
- `Findings`: concrete inputs for the two line-ending findings.

## Model

| member | source | states |
|---|---|---|
| Notes.CreateNote | main.py:13-36 | The directory exists afterwards, even when the mode fails. The reply is "appended" exactly for mode "a" and "written" exactly for mode "w"; any other mode fails and changes no file. Append leaves the earlier text followed by the content, or just the content when the note was absent; it leaves undecodable bytes undecodable. Overwrite leaves exactly the content. No other file changes. |
| Notes.DeleteChunk | main.py:41-90 | Checks run in the source's order, and the first failing one decides the reply: a negative offset, then `start >= end`, then a missing file, then an undecodable file, then `start >= length` (the start reply, carrying the decoded length), then `end > length` (the end reply, carrying the decoded length). The deletion succeeds if and only if `0 <= start < end <= length` on an existing, decodable file. It then reports `end - start` characters and the offsets used. Every other reply leaves the store unchanged. Directories and other files never change. |
| Notes.ReadNote | main.py:95-116 | Gives the "does not exist" reply exactly when the file is absent, and an error exactly when its bytes do not decode. Otherwise it returns the stored text: exactly with `Preserve`, and with line endings translated with `Translate`. |
| Notes.ReadAfterOverwrite | main.py:27-28 | With an exact read (`Preserve`), overwriting a note and then reading it back returns exactly the written content, for any content, including the empty string. |
| Notes.ReadAfterAppend | main.py:27-31 | With an exact read (`Preserve`), appending to a missing or readable note and then reading it returns the earlier text followed by the new content. |
| Notes.AppendTwice | main.py:27-28 | With an exact read (`Preserve`), two appends to a new note read back as their contents in call order. |
| Notes.DeleteChunkSplices | main.py:80-87 | After a successful deletion, the text is shorter by exactly `end - start`. The characters before `start` keep their positions, and those from `end` on move down by `end - start`. Putting the removed chunk back at `start` restores the text the chunk was cut from. |
| Notes.ReadAfterDelete | main.py:80-84 | With an exact read, the stored text before `start` and from `end` on is untouched, and the note reads back as `text[..start] + text[end..]`. |
| Notes.OffsetChecksIgnoreStore | main.py:56-60 | A negative offset or `start >= end` is rejected before any file lookup: the reply is the same for every store, and the store does not change. |
| Notes.NoDeletionFromEmptyNote | main.py:73-74 | On an empty note, every well-ordered range is rejected as starting beyond the content, which has length 0. Nothing changes. |
| Notes.CreateNotePreservesValid | main.py:19-28 | Creating or appending keeps every file inside an existing directory, because the directory is created before the file is opened. |
| Notes.DeleteChunkPreservesValid | main.py:62-84 | Deleting a chunk keeps every file inside an existing directory. |
| Notes.FileNamesAlias | main.py:24 | A note is identified only by its resolved file name: a note written as "a.b" with format "c" reads back as "a" with format "b.c". |
| Notes.CreateNoteDefaults | main.py:13 | With mode, format and directory left at their defaults ("a", "txt", "Personal-notes-server"), create_note appends to `filename.txt` and the default directory exists afterwards. |
| Notes.DeleteChunkExample | main.py:80 | Deleting `[2, 5)` from "0123456789" removes 3 characters and leaves "0156789". |
| Listing.ListNotes | main.py:121-142 | Gives the "directory does not exist" reply exactly when the directory is absent. Gives "no notes found" exactly when the directory exists but holds no name ending in an allowed extension. Otherwise returns a non-empty sorted list that is a permutation of exactly those names, each once. |
| Listing.ListDir | main.py:134 | The directory listing contains every file name of the directory exactly once, in an order the model leaves open. |
| Listing.FilterNotes | main.py:134 | Keeps each entry that ends in one of the allowed extensions, as often as it occurs, and drops every other entry. |
| Listing.ListingIsDeterministic | main.py:137 | Any two sorted permutations of a directory's notes are equal and free of duplicates, so the listing order does not affect the reply. |
| Listing.CreatedNoteIsListed | main.py:134 | After a successful create or append with an allowed format, the directory exists and the note's file name is among its listed notes. |
| Listing.ListingExample | main.py:134-137 | A directory holding "b.txt", "a.txt" and "c.bin" lists as exactly `["a.txt", "b.txt"]`. |
| Lexicographic.Sort | main.py:137 | Returns a sorted permutation of its input in Python's string order. |
| Lexicographic.SortedUnique | main.py:137 | Two sorted sequences with the same elements, counted with multiplicity, are equal. |
| Lexicographic.LeqTotal | main.py:137 | Python's string order is total: any two names can be compared. |
| Lexicographic.LeqTransitive | main.py:137 | Python's string order is transitive. |
| Lexicographic.LeqAntisymmetric | main.py:137 | Two names that are each at most the other are equal. |
| Newlines.Universal | main.py:112-113 | A text-mode read never returns a carriage return, and never returns more characters than are stored. Its value is fixed by `Newlines.UniversalIsPiecewise`. |
| Newlines.UniversalIsPiecewise | main.py:112-113 | For every stored text, the read is the concatenation, position by position, of: nothing for a "\r" followed by "\n", "\n" for any other "\r", and the character itself otherwise. |
| Newlines.UniversalExactIff | main.py:112-113 | A text-mode read returns the stored text unchanged if and only if the stored text holds no carriage return. |
| Newlines.UniversalIdempotent | main.py:69-70 | Translating text that was already read changes nothing more. |
| Findings.OverwriteRoundTripIff | main.py:112-113 | As written, overwriting a note and reading it back returns the written content if and only if the content holds no "\r". |
| Findings.OverwriteThenReadTranslates | main.py:112-113 | As written, overwriting a note with "a\r\nb" and reading it back returns "a\nb", not the written content. |
| Findings.DeleteChunkRewritesLineEndings | main.py:69-84 | As written, deleting `[0, 1)` from a note holding "ab\r\ncd" stores "b\ncd". An exact read stores "b\r\ncd". |

## Left out

- The FastMCP server, the tool registration and `mcp.run()` are protocol plumbing over a library that is not part of this model.
- The status strings are not built. Each reply case carries the values its message interpolates: the file name, offsets, length and count.
- The base path is an opaque fixed prefix: every path in the store is relative to it.
- `os.path.join` quirks are not modelled: absolute components, separators or `..` inside `filename`, `format` or `dir`, and a `dir` naming nested directories. A directory is one opaque name.
- Notes.CreateNote: any mode other than "a" and "w", `None` included, is the error reply. Python's `open` also accepts modes such as "a+", "w+", "x" and "r+", and some of those would succeed.
- I/O failures other than undecodable bytes are not modelled. These include permission errors, a full disk, a path that names a directory, and a parent path that is a file. Undecodable bytes are the only modelled cause of an error reply from `read_note` or `delete_chunk`. `create_note` fails only for an unsupported mode.
- The "error accessing directory" reply of `list_notes` has no case, because no modelled store can make the directory listing fail. The listing shows only files, not subdirectory names.
- Writing a string with lone surrogates cannot be expressed: a Dafny `char` is a Unicode scalar value, so the encode error it would raise is not modelled.
- Line-separator translation on write only happens on systems whose separator is not "\n". The model assumes a POSIX system.
- Concurrent callers and races between the read and the write-back in `delete_chunk` are not modelled. The tools do no locking.
- Listing.ListDir: the order of the system's directory listing is left open (chosen nondeterministically). Only the multiset of names is specified, which is all the sorted reply depends on.

## Findings

| source | as written | input that shows it | evidently intended | confidence | as-written member | corrected member |
|---|---|---|---|---|---|---|
| main.py:112-113 | `read_note` opens the file in text mode with the default newline handling, so every "\r\n" and lone "\r" comes back as "\n" | `create_note("n", "a\r\nb", "w")` followed by `read_note("n")` returns "a\nb" | the read returns the stored text exactly, e.g. by opening with `newline=""`, so that overwrite-then-read returns the written content for any content | medium; not executed | Findings.OverwriteThenReadTranslates | Notes.ReadAfterOverwrite |
| main.py:69-84 | `delete_chunk` reads the text with newline translation, counts offsets in the translated text and writes the translated text back, so every line ending in the note is rewritten | deleting `[0, 1)` from a note holding "ab\r\ncd" leaves "b\ncd" | only the characters in `[start, end)` are removed: "b\r\ncd" | medium; not executed | Findings.DeleteChunkRewritesLineEndings | Notes.ReadAfterDelete |
