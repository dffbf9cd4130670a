/**
  Concrete inputs on which the tools, as written, do not return or keep the
  text they were given: a text-mode read turns every "\r\n" and lone "\r"
  into "\n", and delete_chunk writes that translated text back.
 */
module Findings {
  import opened FileStore
  import opened Newlines
  import opened Notes

  /** Overwriting a note with "a\r\nb" and reading it back as written yields "a\nb". */
  lemma OverwriteThenReadTranslates(s: Store, dir: string)
    ensures var s' := CreateNote(s, "n", "a\r\nb", Some("w"), "txt", dir).store;
            && ReadNote(s', "n", "txt", dir, Translate) == Contents("a\nb")
            && ReadNote(s', "n", "txt", dir, Translate) != Contents("a\r\nb")
  {
    assert Universal("b") == "b";
    assert "a\r\nb"[2..] == "\nb" && "a\r\nb"[1..] == "\r\nb";
    assert Universal("\r\nb") == "\nb" by {
      assert "\r\nb"[2..] == "b";
    }
    assert Universal("a\r\nb") == "a\nb";
  }

  /** As written, overwriting a note and reading it back returns the content
      exactly when the content holds no carriage return. */
  lemma OverwriteRoundTripIff(s: Store, filename: string, content: string, format: string, dir: string)
    ensures ReadNote(CreateNote(s, filename, content, Some("w"), format, dir).store,
                     filename, format, dir, Translate) == Contents(content)
            <==> '\r' !in content
  {
    UniversalExactIff(content);
  }

  /** A universal-newlines read of "ab\r\ncd" returns "ab\ncd". */
  lemma TranslatedExample()
    ensures Universal("ab\r\ncd") == "ab\ncd"
  {
    var raw := "ab\r\ncd";
    assert raw[4..] == "cd" && raw[2..] == "\r\ncd" && raw[1..] == "b\r\ncd";
    UniversalKeepsPlainText("cd");
    assert Universal(raw[2..]) == "\ncd" by {
      assert raw[2..][2..] == "cd";
    }
    assert Universal(raw[1..]) == "b\ncd" by {
      assert raw[1..][1..] == raw[2..];
    }
  }

  /** Deleting the first character of "ab\r\ncd" as written also replaces the
      stored "\r\n" with "\n"; the exact read removes only that character. */
  lemma DeleteChunkRewritesLineEndings(dir: string)
    ensures var s := Store({dir}, map[Path(dir, "n.txt") := Text("ab\r\ncd")]);
            && DeleteChunk(s, "n", 0, 1, "txt", dir, Translate).store.files[Path(dir, "n.txt")] == Text("b\ncd")
            && DeleteChunk(s, "n", 0, 1, "txt", dir, Preserve).store.files[Path(dir, "n.txt")] == Text("b\r\ncd")
  {
    var s := Store({dir}, map[Path(dir, "n.txt") := Text("ab\r\ncd")]);
    assert FileName("n", "txt") == "n.txt";
    TranslatedExample();
    DeleteChunkStoresSplice(s, "n", 0, 1, "txt", dir, Translate);
    DeleteChunkStoresSplice(s, "n", 0, 1, "txt", dir, Preserve);
    assert "ab\ncd"[..0] + "ab\ncd"[1..] == "b\ncd";
    assert "ab\r\ncd"[..0] + "ab\r\ncd"[1..] == "b\r\ncd";
  }
}
