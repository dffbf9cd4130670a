/**
  list_notes: the names in a directory that end in an allowed note
  extension, in Python's string order.
 */
module Listing {
  import opened FileStore
  import opened Lexicographic
  import Notes

  /** The extensions a listed note may end with. */
  const AllowedExtensions: seq<string> := [".txt", ".py", ".md", ".html", ".css", ".js"]

  predicate EndsWith(s: string, suffix: string)
  {
    |suffix| <= |s| && s[|s| - |suffix|..] == suffix
  }

  /** Whether a directory entry counts as a note. */
  predicate IsNote(name: string)
  {
    exists e :: e in AllowedExtensions && EndsWith(name, e)
  }

  /** The names of the files in `dir`. */
  function NamesIn(s: Store, dir: string): set<string>
  {
    set p | p in s.files && p.dir == dir :: p.name
  }

  /** The names in `dir` that count as notes. */
  function NotesIn(s: Store, dir: string): set<string>
  {
    set n | n in NamesIn(s, dir) && IsNote(n)
  }

  datatype ListReply =
    | DirectoryMissing        // the directory does not exist
    | NoNotes                 // it exists but holds no note
    | Listed(names: seq<string>)

  /** The directory listing, each name once, in whatever order the system yields. */
  method ListDir(s: Store, dir: string) returns (entries: seq<string>)
    ensures multiset(entries) == multiset(NamesIn(s, dir))
  {
    var all := NamesIn(s, dir);
    var pending := all;
    entries := [];
    while pending != {}
      invariant pending <= all
      invariant multiset(entries) == multiset(all - pending)
      decreases pending
    {
      var n :| n in pending;
      assert all - (pending - {n}) == (all - pending) + {n};
      entries := entries + [n];
      pending := pending - {n};
    }
    assert all - pending == all;
  }

  /** The entries that are notes, each as often as it occurs in `entries`. */
  function FilterNotes(entries: seq<string>): (r: seq<string>)
    ensures forall x :: multiset(r)[x] == if IsNote(x) then multiset(entries)[x] else 0
  {
    if |entries| == 0 then []
    else
      assert entries == [entries[0]] + entries[1..];
      var rest := FilterNotes(entries[1..]);
      if IsNote(entries[0]) then [entries[0]] + rest else rest
  }

  /**
    list_notes: a missing directory and a directory without notes get their
    own replies; otherwise the reply is the notes of the directory, each
    once, sorted.
   */
  method ListNotes(s: Store, dir: string) returns (r: ListReply)
    ensures r == DirectoryMissing <==> dir !in s.dirs
    ensures r == NoNotes <==> dir in s.dirs && NotesIn(s, dir) == {}
    ensures r.Listed? ==> |r.names| > 0 && Sorted(r.names)
    ensures r.Listed? ==> multiset(r.names) == multiset(NotesIn(s, dir))
  {
    if dir !in s.dirs {
      return DirectoryMissing;
    }
    var entries := ListDir(s, dir);
    var notes := FilterNotes(entries);
    assert multiset(notes) == multiset(NotesIn(s, dir)) by {
      forall x
        ensures multiset(notes)[x] == multiset(NotesIn(s, dir))[x]
      {
        assert x in NotesIn(s, dir) <==> x in NamesIn(s, dir) && IsNote(x);
      }
    }
    if |notes| > 0 {
      r := Listed(Sort(notes));
    } else {
      assert |NotesIn(s, dir)| == |multiset(NotesIn(s, dir))| == |notes| == 0;
      r := NoNotes;
    }
  }

  /** A listing holds each note once and only one order of them is sorted, so
      the reply does not depend on the order of the directory listing. */
  lemma ListingIsDeterministic(s: Store, dir: string, a: seq<string>, b: seq<string>)
    requires Sorted(a) && multiset(a) == multiset(NotesIn(s, dir))
    requires Sorted(b) && multiset(b) == multiset(NotesIn(s, dir))
    ensures a == b
    ensures forall i, j :: 0 <= i < j < |a| ==> a[i] != a[j]
  {
    SortedUnique(a, b);
    PermutationOfSetIsDistinct(a, NotesIn(s, dir));
  }

  /** A note written or appended with an allowed format shows up in its directory's listing. */
  lemma CreatedNoteIsListed(s: Store, filename: string, content: string, mode: Option<string>,
                            format: string, dir: string)
    requires mode == Some("a") || mode == Some("w")
    requires "." + format in AllowedExtensions
    ensures var s' := Notes.CreateNote(s, filename, content, mode, format, dir).store;
            dir in s'.dirs && FileName(filename, format) in NotesIn(s', dir)
  {
    var s' := Notes.CreateNote(s, filename, content, mode, format, dir).store;
    var p := Path(dir, FileName(filename, format));
    var name := FileName(filename, format);
    assert p in s'.files by {
      assert Lookup(s', p).Some?;
    }
    assert name in NamesIn(s', dir);
    assert name == filename + ("." + format);
    assert name[|name| - |"." + format|..] == "." + format;
    assert EndsWith(name, "." + format);
  }

  function ExampleStore(dir: string): Store
  {
    Store({dir}, map[Path(dir, "b.txt") := Text(""), Path(dir, "a.txt") := Text(""),
                     Path(dir, "c.bin") := Text("")])
  }

  lemma ExampleNames(dir: string)
    ensures NamesIn(ExampleStore(dir), dir) == {"a.txt", "b.txt", "c.bin"}
  {
    var s := ExampleStore(dir);
    assert Path(dir, "a.txt") in s.files && Path(dir, "b.txt") in s.files && Path(dir, "c.bin") in s.files;
    assert s.files.Keys == {Path(dir, "a.txt"), Path(dir, "b.txt"), Path(dir, "c.bin")};
  }

  lemma TextFilesAreNotes(name: string)
    requires name == "a.txt" || name == "b.txt"
    ensures IsNote(name)
  {
    assert ".txt" in AllowedExtensions;
    assert name[1..] == ".txt";
  }

  lemma BinaryFileIsNoNote()
    ensures !IsNote("c.bin")
  {
    forall e | e in AllowedExtensions
      ensures !EndsWith("c.bin", e)
    {
      assert "c.bin"[1..] == ".bin";
      assert "c.bin"[2..] == "bin";
    }
  }

  lemma NoteMembership(s: Store, dir: string, n: string)
    ensures n in NotesIn(s, dir) <==> n in NamesIn(s, dir) && IsNote(n)
  {
  }

  lemma ExampleNotesInclude(dir: string)
    ensures {"a.txt", "b.txt"} <= NotesIn(ExampleStore(dir), dir)
  {
    var s := ExampleStore(dir);
    ExampleNames(dir);
    TextFilesAreNotes("a.txt");
    TextFilesAreNotes("b.txt");
    NoteMembership(s, dir, "a.txt");
    NoteMembership(s, dir, "b.txt");
  }

  lemma ExampleNotesWithin(dir: string)
    ensures NotesIn(ExampleStore(dir), dir) <= {"a.txt", "b.txt"}
  {
    var s := ExampleStore(dir);
    ExampleNames(dir);
    BinaryFileIsNoNote();
    forall n | n in NotesIn(s, dir)
      ensures n in {"a.txt", "b.txt"}
    {
      NoteMembership(s, dir, n);
    }
  }

  lemma ExampleNotes(dir: string)
    ensures NotesIn(ExampleStore(dir), dir) == {"a.txt", "b.txt"}
  {
    ExampleNotesInclude(dir);
    ExampleNotesWithin(dir);
  }

  /** A directory holding "b.txt", "a.txt" and "c.bin" lists as ["a.txt", "b.txt"]. */
  lemma ListingExample(dir: string, names: seq<string>)
    requires Sorted(names)
    requires multiset(names) == multiset(NotesIn(ExampleStore(dir), dir))
    ensures names == ["a.txt", "b.txt"]
  {
    ExampleNotes(dir);
    var expected := ["a.txt", "b.txt"];
    assert Leq("a.txt", "b.txt");
    assert multiset(expected) == multiset({"a.txt", "b.txt"});
    SortedUnique(names, expected);
  }
}
