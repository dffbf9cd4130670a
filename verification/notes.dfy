/**
  The three note tools that read or change one file: create/append, delete
  a character range, and read. Each is a pure function of the store; the
  ones that can change it return the new store beside their reply.
 */
module Notes {
  import opened FileStore
  import opened Newlines

  /** Replies of create_note. */
  datatype CreateReply =
    | Appended(note: string)  // the "content appended" status
    | Written(note: string)   // the "created and content written" status
    | CreateFailed            // an exception, reported as an error string

  /** Replies of delete_chunk, in the order the tool checks for them. */
  datatype DeleteReply =
    | NegativePosition                      // start or end below zero
    | EmptyRange                            // start not below end
    | DeleteMissing(note: string)           // the file does not exist
    | DeleteFailed                          // an exception while reading the file
    | StartBeyond(start: int, length: nat)  // start at or past the end of the text
    | EndBeyond(end: int, length: nat)      // end past the end of the text
    | Deleted(count: int, start: int, end: int, note: string)

  /** Replies of read_note. */
  datatype ReadReply =
    | Contents(text: string)
    | ReadMissing(note: string)
    | ReadFailed

  /** A reply together with the store after the call. */
  datatype Step<R> = Step(reply: R, store: Store)

  /** The files of two stores agree on every path except possibly `p`. */
  ghost predicate SameElsewhere(a: Store, b: Store, p: Path)
  {
    forall q :: q != p ==> Lookup(a, q) == Lookup(b, q)
  }

  /** What an append leaves in a file that held `prior` (absent when `None`). */
  function AppendTo(prior: Option<Content>, content: string): Content
  {
    match prior
    case None => Text(content)
    case Some(Text(t)) => Text(t + content)
    // appended UTF-8 never repairs bytes that already fail to decode
    case Some(Undecodable) => Undecodable
  }

  /**
    create_note: make the directory when it is missing, then open the file in
    `mode` and write `content`. Only "a" (append) and "w" (overwrite) are
    modelled; any other mode, `None` included, fails after the directory exists.
   */
  function CreateNote(s: Store, filename: string, content: string, mode: Option<string>,
                      format: string, dir: string): (r: Step<CreateReply>)
    ensures r.store.dirs == s.dirs + {dir}
    ensures r.reply.Appended? <==> mode == Some("a")
    ensures r.reply.Written? <==> mode == Some("w")
    ensures !r.reply.CreateFailed? ==> r.reply.note == FileName(filename, format)
    ensures r.reply.CreateFailed? ==> r.store.files == s.files
    ensures SameElsewhere(r.store, s, Path(dir, FileName(filename, format)))
    ensures mode == Some("w") ==> Lookup(r.store, Path(dir, FileName(filename, format))) == Some(Text(content))
    ensures mode == Some("a") ==>
      match Lookup(s, Path(dir, FileName(filename, format)))
      case None => Lookup(r.store, Path(dir, FileName(filename, format))) == Some(Text(content))
      case Some(Text(prior)) => Lookup(r.store, Path(dir, FileName(filename, format))) == Some(Text(prior + content))
      case Some(Undecodable) => Lookup(r.store, Path(dir, FileName(filename, format))) == Some(Undecodable)
  {
    var name := FileName(filename, format);
    var p := Path(dir, name);
    var withDir := s.(dirs := s.dirs + {dir});
    if mode == Some("a") then
      Step(Appended(name), withDir.(files := s.files[p := AppendTo(Lookup(s, p), content)]))
    else if mode == Some("w") then
      Step(Written(name), withDir.(files := s.files[p := Text(content)]))
    else
      Step(CreateFailed, withDir)
  }

  /**
    delete_chunk: remove the characters at positions `start` up to but not
    including `end`, after checking, in order, that both positions are
    non-negative, that `start < end`, that the file exists, that its text
    decodes, and that the range lies inside the text.
   */
  function DeleteChunk(s: Store, filename: string, start: int, end: int, format: string,
                       dir: string, nl: Newline): (r: Step<DeleteReply>)
    ensures start < 0 || end < 0 ==> r.reply == NegativePosition
    ensures 0 <= start && 0 <= end && start >= end ==> r.reply == EmptyRange
    ensures 0 <= start < end && Lookup(s, Path(dir, FileName(filename, format))).None? ==>
      r.reply == DeleteMissing(FileName(filename, format))
    ensures 0 <= start < end && Lookup(s, Path(dir, FileName(filename, format))) == Some(Undecodable) ==>
      r.reply == DeleteFailed
    ensures 0 <= start < end && Path(dir, FileName(filename, format)) in s.files
            && Decode(s.files[Path(dir, FileName(filename, format))], nl).Some? ==>
      var n := |Decode(s.files[Path(dir, FileName(filename, format))], nl).value|;
      && (start >= n ==> r.reply == StartBeyond(start, n))
      && (start < n < end ==> r.reply == EndBeyond(end, n))
    ensures r.reply.Deleted? <==>
      && 0 <= start < end
      && Path(dir, FileName(filename, format)) in s.files
      && Decode(s.files[Path(dir, FileName(filename, format))], nl).Some?
      && end <= |Decode(s.files[Path(dir, FileName(filename, format))], nl).value|
    ensures r.reply.Deleted? ==>
      r.reply == Deleted(end - start, start, end, FileName(filename, format))
    ensures !r.reply.Deleted? ==> r.store == s
    ensures r.store.dirs == s.dirs
    ensures SameElsewhere(r.store, s, Path(dir, FileName(filename, format)))
  {
    var name := FileName(filename, format);
    var p := Path(dir, name);
    if start < 0 || end < 0 then Step(NegativePosition, s)
    else if start >= end then Step(EmptyRange, s)
    else if p !in s.files then Step(DeleteMissing(name), s)
    else match Decode(s.files[p], nl)
      case None => Step(DeleteFailed, s)
      case Some(text) =>
        if start >= |text| then Step(StartBeyond(start, |text|), s)
        else if end > |text| then Step(EndBeyond(end, |text|), s)
        else Step(Deleted(end - start, start, end, name),
                  s.(files := s.files[p := Text(text[..start] + text[end..])]))
  }

  /** read_note: the file's text, or the missing-file reply; the store is untouched. */
  function ReadNote(s: Store, filename: string, format: string, dir: string, nl: Newline): (r: ReadReply)
    ensures r.ReadMissing? <==> Lookup(s, Path(dir, FileName(filename, format))).None?
    ensures r.ReadMissing? ==> r.note == FileName(filename, format)
    ensures r.ReadFailed? <==> Lookup(s, Path(dir, FileName(filename, format))) == Some(Undecodable)
    ensures nl == Preserve && Lookup(s, Path(dir, FileName(filename, format))).Some?
            && Lookup(s, Path(dir, FileName(filename, format))).value.Text? ==>
      r == Contents(Lookup(s, Path(dir, FileName(filename, format))).value.chars)
    ensures nl == Translate && Lookup(s, Path(dir, FileName(filename, format))).Some?
            && Lookup(s, Path(dir, FileName(filename, format))).value.Text? ==>
      r == Contents(Universal(Lookup(s, Path(dir, FileName(filename, format))).value.chars))
  {
    var name := FileName(filename, format);
    var p := Path(dir, name);
    if p !in s.files then ReadMissing(name)
    else match Decode(s.files[p], nl)
      case None => ReadFailed
      case Some(text) => Contents(text)
  }

  // ---------------------------------------------------------------------
  // Properties relating the operations

  /** With every optional argument left out, create_note appends to a ".txt"
      note in the default directory. */
  lemma CreateNoteDefaults(s: Store, filename: string, content: string)
    ensures var r := CreateNote(s, filename, content, DefaultMode, DefaultFormat, DefaultDir);
            && r.reply == Appended(filename + ".txt")
            && DefaultDir in r.store.dirs
  {
  }

  /** Overwriting a note and reading it back returns exactly what was written. */
  lemma ReadAfterOverwrite(s: Store, filename: string, content: string, format: string, dir: string)
    ensures ReadNote(CreateNote(s, filename, content, Some("w"), format, dir).store,
                     filename, format, dir, Preserve) == Contents(content)
  {
  }

  /** Appending to a missing or readable note and reading it back returns the
      earlier text followed by the new content. */
  lemma ReadAfterAppend(s: Store, filename: string, content: string, format: string, dir: string)
    requires Lookup(s, Path(dir, FileName(filename, format))) != Some(Undecodable)
    ensures ReadNote(CreateNote(s, filename, content, Some("a"), format, dir).store,
                     filename, format, dir, Preserve)
            == Contents(match Lookup(s, Path(dir, FileName(filename, format)))
                        case None => content
                        case Some(c) => c.chars + content)
  {
  }

  /** Two appends to a note that does not exist yet leave both contents, in call order. */
  lemma AppendTwice(s: Store, filename: string, first: string, second: string, format: string, dir: string)
    requires Lookup(s, Path(dir, FileName(filename, format))).None?
    ensures var s1 := CreateNote(s, filename, first, Some("a"), format, dir).store;
            var s2 := CreateNote(s1, filename, second, Some("a"), format, dir).store;
            ReadNote(s2, filename, format, dir, Preserve) == Contents(first + second)
  {
  }

  /** A successful deletion stores the text with the chunk cut out. */
  lemma DeleteChunkStoresSplice(s: Store, filename: string, start: int, end: int, format: string,
                                dir: string, nl: Newline)
    requires DeleteChunk(s, filename, start, end, format, dir, nl).reply.Deleted?
    ensures var p := Path(dir, FileName(filename, format));
            var text := Decode(s.files[p], nl).value;
            && 0 <= start < end <= |text|
            && Lookup(DeleteChunk(s, filename, start, end, format, dir, nl).store, p)
               == Some(Text(text[..start] + text[end..]))
  {
  }

  /** Cutting `[start, end)` out of `text`: what stays and where it moves. */
  lemma SpliceFacts(text: string, start: int, end: int)
    requires 0 <= start < end <= |text|
    ensures var kept := text[..start] + text[end..];
            && |kept| == |text| - (end - start)
            && (forall i :: 0 <= i < start ==> kept[i] == text[i])
            && (forall i :: start <= i < |kept| ==> kept[i] == text[i + (end - start)])
            && kept[..start] + text[start..end] + kept[start..] == text
  {
    var kept := text[..start] + text[end..];
    assert kept[..start] == text[..start];
    assert kept[start..] == text[end..];
    assert text == text[..start] + text[start..end] + text[end..];
  }

  /** A successful deletion keeps the text before `start`, shifts the text from
      `end` on down by `end - start`, and putting the removed chunk back
      restores the text it was cut from. */
  lemma DeleteChunkSplices(s: Store, filename: string, start: int, end: int, format: string,
                           dir: string, nl: Newline)
    requires DeleteChunk(s, filename, start, end, format, dir, nl).reply.Deleted?
    ensures var p := Path(dir, FileName(filename, format));
            var text := Decode(s.files[p], nl).value;
            var after := DeleteChunk(s, filename, start, end, format, dir, nl).store;
            && Lookup(after, p).Some? && Lookup(after, p).value.Text?
            && var kept := Lookup(after, p).value.chars;
               && |kept| == |text| - (end - start)
               && (forall i :: 0 <= i < start ==> kept[i] == text[i])
               && (forall i :: start <= i < |kept| ==> kept[i] == text[i + (end - start)])
               && kept[..start] + text[start..end] + kept[start..] == text
  {
    DeleteChunkStoresSplice(s, filename, start, end, format, dir, nl);
    SpliceFacts(Decode(s.files[Path(dir, FileName(filename, format))], nl).value, start, end);
  }

  /** When the text is read exactly, the stored text outside the chunk is
      untouched and the note reads back as the spliced text. */
  lemma ReadAfterDelete(s: Store, filename: string, start: int, end: int, format: string, dir: string)
    requires DeleteChunk(s, filename, start, end, format, dir, Preserve).reply.Deleted?
    ensures var p := Path(dir, FileName(filename, format));
            var text := s.files[p].chars;
            var after := DeleteChunk(s, filename, start, end, format, dir, Preserve).store;
            && ReadNote(after, filename, format, dir, Preserve) == Contents(text[..start] + text[end..])
            && after.files[p].chars[..start] == text[..start]
            && after.files[p].chars[start..] == text[end..]
  {
    var text := s.files[Path(dir, FileName(filename, format))].chars;
    var kept := text[..start] + text[end..];
    assert kept[..start] == text[..start];
    assert kept[start..] == text[end..];
  }

  /** The offset checks come before any lookup: their replies do not depend on the store. */
  lemma OffsetChecksIgnoreStore(s: Store, t: Store, filename: string, start: int, end: int,
                                format: string, dir: string, nl: Newline)
    requires start < 0 || end < 0 || start >= end
    ensures DeleteChunk(s, filename, start, end, format, dir, nl).reply
            == DeleteChunk(t, filename, start, end, format, dir, nl).reply
    ensures DeleteChunk(s, filename, start, end, format, dir, nl).store == s
  {
  }

  /** Nothing can be deleted from an empty note: every well-ordered range starts beyond it. */
  lemma NoDeletionFromEmptyNote(s: Store, filename: string, start: int, end: int, format: string,
                                dir: string, nl: Newline)
    requires Lookup(s, Path(dir, FileName(filename, format))) == Some(Text(""))
    requires 0 <= start < end
    ensures DeleteChunk(s, filename, start, end, format, dir, nl).reply == StartBeyond(start, 0)
    ensures DeleteChunk(s, filename, start, end, format, dir, nl).store == s
  {
    assert Decode(Text(""), nl) == Some("");
  }

  /** Creating a note keeps every file inside an existing directory. */
  lemma CreateNotePreservesValid(s: Store, filename: string, content: string, mode: Option<string>,
                                 format: string, dir: string)
    requires Valid(s)
    ensures Valid(CreateNote(s, filename, content, mode, format, dir).store)
  {
    var s' := CreateNote(s, filename, content, mode, format, dir).store;
    forall q | q in s'.files
      ensures q.dir in s'.dirs
    {
      if q != Path(dir, FileName(filename, format)) {
        assert Lookup(s', q) == Lookup(s, q);
      }
    }
  }

  /** Deleting a chunk keeps every file inside an existing directory. */
  lemma DeleteChunkPreservesValid(s: Store, filename: string, start: int, end: int, format: string,
                                  dir: string, nl: Newline)
    requires Valid(s)
    ensures Valid(DeleteChunk(s, filename, start, end, format, dir, nl).store)
  {
  }

  /** A note is identified by its resolved file name only: "a.b" with format "c"
      and "a" with format "b.c" are the same file. */
  lemma FileNamesAlias(s: Store, content: string, dir: string)
    ensures ReadNote(CreateNote(s, "a.b", content, Some("w"), "c", dir).store,
                     "a", "b.c", dir, Preserve) == Contents(content)
  {
    assert FileName("a.b", "c") == FileName("a", "b.c");
  }

  /** Deleting positions 2, 3 and 4 of "0123456789" leaves "0156789". */
  lemma DeleteChunkExample(dir: string, nl: Newline)
    ensures var s := Store({dir}, map[Path(dir, "n.txt") := Text("0123456789")]);
            var r := DeleteChunk(s, "n", 2, 5, "txt", dir, nl);
            && r.reply == Deleted(3, 2, 5, "n.txt")
            && r.store.files[Path(dir, "n.txt")] == Text("0156789")
  {
    assert FileName("n", "txt") == "n.txt";
    assert "0123456789"[..2] + "0123456789"[5..] == "0156789";
    UniversalKeepsPlainText("0123456789");
  }
}
